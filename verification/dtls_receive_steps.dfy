// The steps of the receiving side keep what the transport promises.

module DtlsReceiveSteps {
  import opened Wire
  import opened Ciphers
  import opened Reassembly
  import opened ReplayWindow
  import opened DtlsTransport
  import opened DtlsWindow
  import R = DtlsReceiver
  import S = DtlsSender

  // What of the system the receiver's promises are about.
  ghost predicate RecvOk(keys: Keys, c: Sys, r: R.Receiver, via: map<nat, Sent>) {
    ReceiverOk(keys, r, c.queued, c.delivered, c.log, via)
  }

  // Accepting a record into the replay window.

  // The receiver with one more number accepted, and the record noted for its message.
  lemma {:induction false} AcceptKeepsReceiver(keys: Keys, c: Sys, r: R.Receiver, via: map<nat, Sent>,
                                               r': R.Receiver, via': map<nat, Sent>)
    requires RecvOk(keys, c, r, via)
    requires r' == r.(accepted := r'.accepted, hasCcs := r'.hasCcs)
    requires forall k :: ViaOk(r, c.log, via, k) ==> ViaOk(r', c.log, via', k)
    ensures RecvOk(keys, c, r', via')
  {
  }

  lemma {:induction false} NoteKeepsReceiver(keys: Keys, c: Sys, e: Sent)
    requires RecvOk(keys, c, c.r, c.via) && e in c.log && e.x.rec.epoch == c.r.rEpoch
    ensures var r' := c.r.(accepted := c.r.accepted + {Sequence64(e.x.rec.epoch, e.x.rec.seqNum)});
            var via' := if e.x.rec.typ == RT_HANDSHAKE then c.via[e.idx := e] else c.via;
            && RecvOk(keys, c, r', via')
            && (e.x.rec.typ == RT_HANDSHAKE ==> ViaOk(r', c.log, via', e.idx))
  {
    var r' := c.r.(accepted := c.r.accepted + {Sequence64(e.x.rec.epoch, e.x.rec.seqNum)});
    var via' := if e.x.rec.typ == RT_HANDSHAKE then c.via[e.idx := e] else c.via;
    AcceptKeepsReceiver(keys, c, c.r, c.via, r', via');
  }

  // Storing a fragment.

  lemma {:induction false} PieceMatches(f: Frag, msg: R.Message, off: nat, len: nat, epoch: nat)
    requires HoldsPart(f, msg) && off + len <= |msg.body|
    ensures HoldsPart(f.Received(off, msg.body[off..off + len], epoch), msg)
  {
  }

  // What a fragment can change of the receiver: the slot of its number.
  lemma FragmentChangesSlot(r: R.Receiver, frag: Fragment, maxLen: nat)
    requires |r.slots| == MAX_FLIGHT
    ensures var r' := R.ReceiveFragment(r, frag, maxLen).0;
            && |r'.slots| == MAX_FLIGHT && r' == r.(slots := r'.slots)
            && forall i :: 0 <= i < MAX_FLIGHT && i != frag.header.seqNum % MAX_FLIGHT ==> r'.slots[i] == r.slots[i]
  {
  }

  lemma {:induction false} SlotsReplaced(keys: Keys, c: Sys, r: R.Receiver, via: map<nat, Sent>, r': R.Receiver)
    requires RecvOk(keys, c, r, via) && R.Inv(r') && r' == r.(slots := r'.slots)
    requires forall i :: 0 <= i < MAX_FLIGHT && r'.slots[i].Some? ==>
               SlotMatches(r, c.queued, |c.delivered|, c.log, via, r'.slots[i].value)
    ensures RecvOk(keys, c, r', via)
  {
    forall k | ViaOk(r, c.log, via, k)
      ensures ViaOk(r', c.log, via, k)
    {
    }
    forall i | 0 <= i < MAX_FLIGHT && r'.slots[i].Some?
      ensures SlotMatches(r', c.queued, |c.delivered|, c.log, via, r'.slots[i].value)
    {
    }
  }

  lemma {:induction false} FragmentKeepsReceiver(keys: Keys, c: Sys, r: R.Receiver, via: map<nat, Sent>,
                                                 frag: Fragment, maxLen: nat, idx: nat, off: nat, len: nat)
    requires RecvOk(keys, c, r, via) && idx < |c.queued| && ViaOk(r, c.log, via, idx)
    requires frag.header == HmHeader(c.queued[idx].typ, |c.queued[idx].body|, idx % SEQ_LIMIT, off, len)
    requires frag.header.Fits() && off + len <= |c.queued[idx].body| && frag.body == c.queued[idx].body[off..off + len]
    requires r.readSeq <= idx % SEQ_LIMIT < r.readSeq + MAX_FLIGHT ==>
               idx == |c.delivered| + idx % SEQ_LIMIT - r.readSeq
    ensures RecvOk(keys, c, R.ReceiveFragment(r, frag, maxLen).0, via)
  {
    R.ReceiveFragmentKeepsInv(r, frag, maxLen);
    FragmentChangesSlot(r, frag, maxLen);
    StoredSlotMatches(c, r, via, frag, maxLen, idx, off, len);
    FragmentSlots(keys, c, r, via, R.ReceiveFragment(r, frag, maxLen).0, frag.header.seqNum % MAX_FLIGHT);
  }

  lemma {:induction false} FragmentSlots(keys: Keys, c: Sys, r: R.Receiver, via: map<nat, Sent>, r': R.Receiver,
                                         slot: nat)
    requires RecvOk(keys, c, r, via) && R.Inv(r') && r' == r.(slots := r'.slots) && slot < MAX_FLIGHT
    requires forall i :: 0 <= i < MAX_FLIGHT && i != slot ==> r'.slots[i] == r.slots[i]
    requires r'.slots[slot] == r.slots[slot]
             || (r'.slots[slot].Some? && SlotMatches(r, c.queued, |c.delivered|, c.log, via, r'.slots[slot].value))
    ensures RecvOk(keys, c, r', via)
  {
    forall i | 0 <= i < MAX_FLIGHT && r'.slots[i].Some?
      ensures SlotMatches(r, c.queued, |c.delivered|, c.log, via, r'.slots[i].value)
    {
      if r'.slots[i] == r.slots[i] {
        assert SlotMatches(r, c.queued, |c.delivered|, c.log, via, r.slots[i].value);
      }
    }
    SlotsReplaced(keys, c, r, via, r');
  }

  lemma {:induction false} StoredSlotMatches(c: Sys, r: R.Receiver, via: map<nat, Sent>, frag: Fragment,
                                             maxLen: nat, idx: nat, off: nat, len: nat)
    requires R.Inv(r) && idx < |c.queued| && ViaOk(r, c.log, via, idx)
    requires var slot := r.slots[(idx % SEQ_LIMIT) % MAX_FLIGHT];
             slot.Some? ==> SlotMatches(r, c.queued, |c.delivered|, c.log, via, slot.value)
    requires frag.header == HmHeader(c.queued[idx].typ, |c.queued[idx].body|, idx % SEQ_LIMIT, off, len)
    requires off + len <= |c.queued[idx].body| && frag.body == c.queued[idx].body[off..off + len]
    requires r.readSeq <= idx % SEQ_LIMIT < r.readSeq + MAX_FLIGHT ==>
               idx == |c.delivered| + idx % SEQ_LIMIT - r.readSeq
    ensures var r' := R.ReceiveFragment(r, frag, maxLen).0;
            var i := frag.header.seqNum % MAX_FLIGHT;
            |r'.slots| == MAX_FLIGHT && (r'.slots[i] != r.slots[i] ==>
              r'.slots[i].Some? && SlotMatches(r, c.queued, |c.delivered|, c.log, via, r'.slots[i].value))
  {
    var h := frag.header;
    var i := h.seqNum % MAX_FLIGHT;
    var f := if r.slots[i].Some? then r.slots[i].value else Frag(h.typ, h.seqNum, h.msgLen, map[], {r.rEpoch});
    if r.slots[i].Some? {
      assert R.SlotOk(r, i, f);
    }
    if r.readSeq <= h.seqNum < r.readSeq + MAX_FLIGHT {
      assert SlotMatches(r, c.queued, |c.delivered|, c.log, via, f);
      PieceMatches(f, c.queued[idx], off, len, r.rEpoch);
      assert SlotMatches(r, c.queued, |c.delivered|, c.log, via, f.Received(off, frag.body, r.rEpoch));
    }
  }

  // Opening the next record of the datagram.

  lemma {:induction false} SliceParses(plain: seq<Byte>, msg: R.Message, idx: nat) returns (off: nat, len: nat)
    requires IsSlice(plain, msg, idx)
    ensures CarriesSlice(plain, msg, idx, off, len) && |plain| == HM_HEADER_LENGTH + len
    ensures ParseFragment(plain) ==
              Some(Fragment(HmHeader(msg.typ, |msg.body|, idx % SEQ_LIMIT, off, len), msg.body[off..off + len]))
  {
    off, len :| CarriesSlice(plain, msg, idx, off, len);
    var h := HmHeader(msg.typ, |msg.body|, idx % SEQ_LIMIT, off, len);
    ParseFragmentInverts(h, msg.body[off..off + len], []);
    assert plain + [] == plain;
  }

  // A record holding one fragment runs the fragment loop once.
  lemma {:induction false} OneFragment(r: R.Receiver, plain: seq<Byte>, frag: Fragment, maxLen: nat)
    requires |r.slots| == MAX_FLIGHT && ParseFragment(plain) == Some(frag) && |plain| == HM_HEADER_LENGTH + |frag.body|
    ensures R.ReceiveFragments(r, plain, maxLen).0 == R.ReceiveFragment(r, frag, maxLen).0
  {
  }

  // The first record of the buffer is the first one of the datagram's rest.
  lemma {:induction false} BufferStarts(keys: Keys, c: Sys) returns (e: Sent)
    requires NetOk(c) && c.buf != []
    ensures c.inbuf != [] && e == c.inbuf[0] && e in c.log
    ensures c.buf == RecordBytes(e.x.rec) + S.PacketBytes(Records(c.inbuf[1..]))
  {
    assert c.inbuf != [];
    e := c.inbuf[0];
    assert Records(c.inbuf)[1..] == Records(c.inbuf[1..]);
  }

  // What dtls_open_record does with an honest record.
  ghost predicate Outcome(c: Sys, e: Sent, o: R.Opened) {
    var seq64 := Sequence64(e.x.rec.epoch, e.x.rec.seqNum);
    && (o.consumed == |c.buf| || o.consumed == RT_HEADER_LENGTH + |e.x.rec.body|) && o.consumed > 0
    && (o.status != R.Success ==> o.receiver == c.r)
    && (o.status == R.Success ==>
          && e.x.rec.epoch == c.r.rEpoch && !Rejects(c.r.accepted, seq64)
          && o.receiver == c.r.(accepted := c.r.accepted + {seq64})
          && o.typ == e.x.rec.typ && o.plain == e.x.plain)
  }

  lemma {:induction false} OpenHonestRecord(keys: Keys, c: Sys, e: Sent, rest: seq<Byte>)
    requires RecordOk(keys, c.queued, c.msgEpoch, e) && c.r.cipher == keys(c.r.rEpoch)
    requires c.buf == RecordBytes(e.x.rec) + rest
    ensures Outcome(c, e, R.OpenRecord(c.r, c.buf))
  {
    ParseRecordInverts(e.x.rec, rest);
  }

  lemma {:induction false} BufferLeft(c: Sys, e: Sent, used: nat)
    requires NetOk(c) && c.inbuf != [] && e == c.inbuf[0]
    requires c.buf == RecordBytes(e.x.rec) + S.PacketBytes(Records(c.inbuf[1..]))
    requires used == |c.buf| || used == RT_HEADER_LENGTH + |e.x.rec.body|
    ensures used <= |c.buf| && c.buf[used..] == S.PacketBytes(Records(Rest(c.inbuf, c.buf, used)))
    ensures AllIn(Rest(c.inbuf, c.buf, used), c.log)
  {
  }

  lemma {:induction false} OpenHandshakeKeeps(keys: Keys, maxLen: nat, c: Sys)
    requires Good(keys, c) && c.buf != []
    ensures var (r', status, used) := R.OpenHandshake(c.r, c.buf, maxLen);
            && RecvOk(keys, c, r', Noted(c, r'.accepted)) && r'.hasMessage == c.r.hasMessage
            && 0 < used <= |c.buf| && c.buf[used..] == S.PacketBytes(Records(Rest(c.inbuf, c.buf, used)))
            && AllIn(Rest(c.inbuf, c.buf, used), c.log)
  {
    var e := BufferStarts(keys, c);
    var i :| 0 <= i < |c.log| && c.log[i] == e;
    assert RecordOk(keys, c.queued, c.msgEpoch, c.log[i]);
    OpenHonestRecord(keys, c, e, S.PacketBytes(Records(c.inbuf[1..])));
    var o := R.OpenRecord(c.r, c.buf);
    BufferLeft(c, e, o.consumed);
    assert R.OpenHandshake(c.r, c.buf, maxLen).2 == o.consumed;
    OpenedKeeps(keys, maxLen, c, e, o);
  }

  lemma {:induction false} OpenedKeeps(keys: Keys, maxLen: nat, c: Sys, e: Sent, o: R.Opened)
    requires Good(keys, c) && c.inbuf != [] && e == c.inbuf[0] && e in c.log
    requires RecordOk(keys, c.queued, c.msgEpoch, e) && o == R.OpenRecord(c.r, c.buf) && Outcome(c, e, o)
    ensures var r' := R.OpenHandshake(c.r, c.buf, maxLen).0;
            RecvOk(keys, c, r', Noted(c, r'.accepted)) && r'.hasMessage == c.r.hasMessage
  {
    if o.status == R.Success {
      assert o.receiver.accepted != c.r.accepted;
      NoteKeepsReceiver(keys, c, e);
      if o.typ == RT_HANDSHAKE {
        HandshakeRecordKeeps(keys, maxLen, c, e, o.receiver);
      } else {
        FlagKeepsReceiver(keys, c, o.receiver, c.via, true);
      }
    }
  }

  lemma {:induction false} FlagKeepsReceiver(keys: Keys, c: Sys, r: R.Receiver, via: map<nat, Sent>, flag: bool)
    requires RecvOk(keys, c, r, via)
    ensures RecvOk(keys, c, r.(hasCcs := flag), via)
  {
    AcceptKeepsReceiver(keys, c, r, via, r.(hasCcs := flag), via);
  }

  lemma {:induction false} HandshakeRecordKeeps(keys: Keys, maxLen: nat, c: Sys, e: Sent, r: R.Receiver)
    requires Good(keys, c) && e in c.log && RecordOk(keys, c.queued, c.msgEpoch, e)
    requires e.x.rec.typ == RT_HANDSHAKE && e.x.rec.epoch == c.r.rEpoch
    requires var seq64 := Sequence64(e.x.rec.epoch, e.x.rec.seqNum);
             !Rejects(c.r.accepted, seq64) && r == c.r.(accepted := c.r.accepted + {seq64})
    requires RecvOk(keys, c, r, c.via[e.idx := e]) && ViaOk(r, c.log, c.via[e.idx := e], e.idx)
    ensures var r' := R.ReceiveFragments(r, e.x.plain, maxLen).0;
            && r'.accepted == r.accepted && r'.hasMessage == r.hasMessage
            && RecvOk(keys, c, r', c.via[e.idx := e])
  {
    var msg := c.queued[e.idx];
    var off, len := SliceParses(e.x.plain, msg, e.idx);
    var frag := Fragment(HmHeader(msg.typ, |msg.body|, e.idx % SEQ_LIMIT, off, len), msg.body[off..off + len]);
    OneFragment(r, e.x.plain, frag, maxLen);
    if c.r.readSeq <= e.idx % SEQ_LIMIT < c.r.readSeq + MAX_FLIGHT {
      NumberNamesMessage(keys, c, e);
    }
    FragmentKeepsReceiver(keys, c, r, c.via[e.idx := e], frag, maxLen, e.idx, off, len);
    FragmentKeepsWindow(r, frag, maxLen);
  }

  lemma FragmentKeepsWindow(r: R.Receiver, frag: Fragment, maxLen: nat)
    requires |r.slots| == MAX_FLIGHT
    ensures R.ReceiveFragment(r, frag, maxLen).0.accepted == r.accepted
    ensures R.ReceiveFragment(r, frag, maxLen).0.hasMessage == r.hasMessage
  {
  }

  lemma {:induction false} OpenKeepsGood(keys: Keys, maxLen: nat, c: Sys)
    requires Good(keys, c) && Enabled(keys, c, Open)
    ensures Good(keys, Apply(keys, maxLen, c, Open))
  {
    OpenHandshakeKeeps(keys, maxLen, c);
  }

  lemma {:induction false} OpenCcsKeepsGood(keys: Keys, maxLen: nat, c: Sys)
    requires Good(keys, c) && Enabled(keys, c, OpenCcs)
    ensures Good(keys, Apply(keys, maxLen, c, OpenCcs))
  {
    if c.r.hasCcs {
      FlagKeepsReceiver(keys, c, c.r, c.via, false);
    } else {
      OpenHandshakeKeeps(keys, maxLen, c);
      var (r', status, used) := R.OpenHandshake(c.r, c.buf, maxLen);
      FlagKeepsReceiver(keys, c, r', Noted(c, r'.accepted), false);
    }
  }

  // Handing out the next message.

  lemma {:induction false} DeliverIsNext(keys: Keys, c: Sys)
    requires Good(keys, c) && R.CurrentComplete(c.r)
    ensures |c.delivered| < |c.queued| && R.GetMessage(c.r).1 == Some(c.queued[|c.delivered|])
    ensures ViaOk(c.r, c.log, c.via, |c.delivered|)
  {
    var i := c.r.readSeq % MAX_FLIGHT;
    var f := c.r.slots[i].value;
    assert R.SlotOk(c.r, i, f);
    assert SlotMatches(c.r, c.queued, |c.delivered|, c.log, c.via, f);
    assert f.seqNum == c.r.readSeq;
    var msg := c.queued[|c.delivered|];
    forall j | 0 <= j < |msg.body|
      ensures f.Body()[j] == msg.body[j]
    {
      assert Between(j, 0, f.msgLen) && j in f.bytes;
    }
    assert f.Body() == msg.body;
  }

  // The state dtls1_get_message leaves: only the has_message flag differs.
  lemma {:induction false} MarkKeepsInv(r: R.Receiver)
    requires R.Inv(r) && R.CurrentComplete(r)
    ensures R.Inv(r.(hasMessage := true))
  {
  }

  // dtls1_get_message may be called again and again: it hands out the same message each time.
  lemma {:induction false} GetKeepsGood(keys: Keys, maxLen: nat, c: Sys)
    requires Good(keys, c) && Enabled(keys, c, Get)
    ensures Good(keys, Apply(keys, maxLen, c, Get))
    ensures Apply(keys, maxLen, c, Get).current == Some(c.queued[|c.delivered|])
  {
    DeliverIsNext(keys, c);
    MarkKeepsInv(c.r);
    var r' := c.r.(hasMessage := true);
    AcceptFlagKeeps(keys, c, r');
    assert Apply(keys, maxLen, c, Get) == c.(r := r', current := Some(c.queued[|c.delivered|]));
  }

  lemma {:induction false} AcceptFlagKeeps(keys: Keys, c: Sys, r': R.Receiver)
    requires RecvOk(keys, c, c.r, c.via) && r' == c.r.(hasMessage := true) && R.Inv(r')
    ensures RecvOk(keys, c, r', c.via)
  {
    forall k | ViaOk(c.r, c.log, c.via, k)
      ensures ViaOk(r', c.log, c.via, k)
    {
    }
    forall i | 0 <= i < MAX_FLIGHT && r'.slots[i].Some?
      ensures SlotMatches(r', c.queued, |c.delivered|, c.log, c.via, r'.slots[i].value)
    {
      assert SlotMatches(c.r, c.queued, |c.delivered|, c.log, c.via, c.r.slots[i].value);
    }
  }

  lemma {:induction false} NextMessageMoves(keys: Keys, c: Sys, r': R.Receiver, delivered: seq<R.Message>)
    requires RecvOk(keys, c, c.r, c.via) && c.r.hasMessage && R.CurrentComplete(c.r)
    requires r' == R.NextMessage(c.r) && R.Inv(r')
    requires delivered <= c.queued && |delivered| == |c.delivered| + 1 && ViaOk(c.r, c.log, c.via, |c.delivered|)
    ensures ReceiverOk(keys, r', c.queued, delivered, c.log, c.via)
  {
    forall k | 0 <= k < |delivered|
      ensures ViaOk(r', c.log, c.via, k)
    {
      assert ViaOk(c.r, c.log, c.via, k);
    }
    forall i | 0 <= i < MAX_FLIGHT && r'.slots[i].Some?
      ensures SlotMatches(r', c.queued, |delivered|, c.log, c.via, r'.slots[i].value)
    {
      LaterSlotMatches(c.r, c.queued, |c.delivered|, c.log, c.via, r', i);
    }
  }

  lemma {:induction false} LaterSlotMatches(r: R.Receiver, queued: seq<R.Message>, d: nat, log: seq<Sent>,
                                            via: map<nat, Sent>, r': R.Receiver, i: nat)
    requires R.Inv(r) && r.hasMessage && R.CurrentComplete(r) && r' == R.NextMessage(r) && R.Inv(r')
    requires i < MAX_FLIGHT && r'.slots[i].Some? && SlotMatches(r, queued, d, log, via, r.slots[i].value)
    ensures SlotMatches(r', queued, d + 1, log, via, r'.slots[i].value)
  {
    assert R.SlotOk(r, i, r.slots[i].value) && R.SlotOk(r', i, r'.slots[i].value);
  }

  lemma {:induction false} NextKeepsGood(keys: Keys, maxLen: nat, c: Sys)
    requires Good(keys, c) && Enabled(keys, c, Next)
    ensures Good(keys, Apply(keys, maxLen, c, Next))
    ensures Handed(Apply(keys, maxLen, c, Next)) == Handed(c)
  {
    DeliverIsNext(keys, c);
    R.NextMessageKeepsInv(c.r);
    var r', delivered := R.NextMessage(c.r), c.delivered + [c.current.value];
    assert delivered == c.queued[..|c.delivered| + 1];
    NextMessageMoves(keys, c, r', delivered);
    assert Apply(keys, maxLen, c, Next) == c.(r := r', delivered := delivered, current := None);
  }

  lemma {:induction false} ChangeReadKeepsReceiver(keys: Keys, r: R.Receiver, queued: seq<R.Message>,
                                                   delivered: seq<R.Message>, log: seq<Sent>, via: map<nat, Sent>,
                                                   r': R.Receiver, ok: bool)
    requires ReceiverOk(keys, r, queued, delivered, log, via) && r.rEpoch + 1 < SEQ_LIMIT
    requires (r', ok) == R.SetReadState(r, keys(r.rEpoch + 1))
    ensures ReceiverOk(keys, r', queued, delivered, log, via)
  {
    R.SetReadStateKeepsInv(r, keys(r.rEpoch + 1));
    forall k | ViaOk(r, log, via, k)
      ensures ViaOk(r', log, via, k)
    {
    }
    forall i | 0 <= i < MAX_FLIGHT && r'.slots[i].Some?
      ensures SlotMatches(r', queued, |delivered|, log, via, r'.slots[i].value)
    {
      assert SlotMatches(r, queued, |delivered|, log, via, r.slots[i].value);
    }
  }

  lemma {:induction false} ChangeReadKeepsGood(keys: Keys, maxLen: nat, c: Sys)
    requires Good(keys, c) && Enabled(keys, c, ChangeRead)
    ensures Good(keys, Apply(keys, maxLen, c, ChangeRead))
  {
    var (r', ok) := R.SetReadState(c.r, keys(c.r.rEpoch + 1));
    ChangeReadKeepsReceiver(keys, c.r, c.queued, c.delivered, c.log, c.via, r', ok);
    ReceiverReplaced(keys, c, Apply(keys, maxLen, c, ChangeRead));
  }

  lemma ReceiverReplaced(keys: Keys, c: Sys, c': Sys)
    requires Good(keys, c) && c' == c.(r := c'.r, alive := c'.alive)
    requires ReceiverOk(keys, c'.r, c.queued, c.delivered, c.log, c.via) && c'.r.hasMessage == c.r.hasMessage
    ensures Good(keys, c')
  {
  }
}
