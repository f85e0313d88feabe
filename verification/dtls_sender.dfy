// The sending half of the DTLS handshake transport, as values: queueing a flight,
// cutting it into records, and rewinding (ssl/d1_both.cc, ssl/dtls_record.cc).

module DtlsSender {
  import opened Wire
  import opened Ciphers

  // A queued handshake message, serialized as a single fragment, or a ChangeCipherSpec.
  datatype Outgoing = Outgoing(data: seq<Byte>, epoch: nat, isCcs: bool)

  // The two live write epochs: the current one, and the one before it.
  datatype WriteState = WriteState(epoch: nat, cipher: Cipher, seqNum: nat, lastCipher: Cipher, lastSeqNum: nat)

  datatype Sender = Sender(
    out: seq<Outgoing>,
    written: nat,
    offset: nat,
    complete: bool,
    ws: WriteState,
    writeSeq: nat)

  // A record put on the wire, the plaintext in it, and the flight entry it came from.
  datatype Sealed = Sealed(rec: Record, plain: seq<Byte>, entry: nat)

  datatype SealResult = SealError | SealNoProgress | SealPartial | SealSuccess

  // A flight entry with its message taken apart.
  datatype Entry = Entry(isCcs: bool, epoch: nat, header: HmHeader, body: seq<Byte>)

  function EntryOf(m: Outgoing): Entry {
    var f := ParseFragment(m.data);
    if m.isCcs || f.None? then Entry(m.isCcs, m.epoch, HmHeader(0, 0, 0, 0, 0), [])
    else Entry(false, m.epoch, f.value.header, f.value.body)
  }

  function Flight(out: seq<Outgoing>): (fl: seq<Entry>)
    ensures |fl| == |out|
  {
    if out == [] then [] else Flight(out[..|out| - 1]) + [EntryOf(out[|out| - 1])]
  }

  lemma {:induction false} FlightAt(out: seq<Outgoing>, i: nat)
    requires i < |out|
    ensures Flight(out)[i] == EntryOf(out[i])
  {
    if i < |out| - 1 {
      FlightAt(out[..|out| - 1], i);
    }
  }

  // The write position: a flight entry and an offset into its body.
  datatype Pos = Pos(entry: nat, off: nat)

  function At(s: Sender): Pos {
    Pos(s.written, s.offset)
  }

  ghost predicate PosOk(fl: seq<Entry>, p: Pos) {
    p.entry <= |fl| && (p.off > 0 ==> p.entry < |fl| && !fl[p.entry].isCcs && p.off < |fl[p.entry].body|)
  }

  // Field ranges, and where the write position may stand.
  ghost predicate Inv(s: Sender) {
    && |s.out| <= MAX_FLIGHT
    && WriteOk(s.ws) && s.writeSeq < 0x1_0000
    && EntriesOk(s.out)
    && PosOk(Flight(s.out), At(s))
  }

  ghost predicate WriteOk(w: WriteState) {
    w.epoch < 0x1_0000 && w.seqNum < SEQUENCE_LIMIT && w.lastSeqNum < SEQUENCE_LIMIT && w.cipher.version < 0x1_0000
  }

  // A queued message parses as one whole fragment.
  ghost predicate EntryOk(m: Outgoing) {
    && m.epoch < 0x1_0000
    && (m.isCcs || (ParseFragment(m.data).Some? && WholeMessage(ParseFragment(m.data).value, m.data)))
  }

  ghost predicate EntriesOk(out: seq<Outgoing>) {
    out == [] || (EntriesOk(out[..|out| - 1]) && EntryOk(out[|out| - 1]))
  }

  lemma {:induction false} EntryIsOk(out: seq<Outgoing>, i: nat)
    requires EntriesOk(out) && i < |out|
    ensures EntryOk(out[i])
  {
    if i < |out| - 1 {
      EntryIsOk(out[..|out| - 1], i);
    }
  }

  function MessageBytes(typ: nat, seqNum: nat, body: seq<Byte>): seq<Byte>
    requires typ < 0x100 && seqNum < 0x1_0000 && |body| < 0x100_0000
  {
    HeaderBytes(HmHeader(typ, |body|, seqNum, 0, |body|)) + body
  }

  lemma {:induction false} MessageParses(typ: nat, seqNum: nat, body: seq<Byte>)
    requires typ < 0x100 && seqNum < 0x1_0000 && |body| < 0x100_0000
    ensures ParseFragment(MessageBytes(typ, seqNum, body)) ==
              Some(Fragment(HmHeader(typ, |body|, seqNum, 0, |body|), body))
  {
    ParseFragmentInverts(HmHeader(typ, |body|, seqNum, 0, |body|), body, []);
    assert MessageBytes(typ, seqNum, body) + [] == MessageBytes(typ, seqNum, body);
  }

  // dtls_seal_record, for entry of the flight. The record carries the version of the
  // current write context even when the previous epoch's is used.
  function SealRecord(w: WriteState, previous: bool, typ: nat, plain: seq<Byte>, maxOut: nat, entry: nat)
    : (res: (WriteState, Option<Sealed>))
    requires previous ==> w.epoch >= 1
  {
    var epoch := EpochUsed(w, previous);
    var seqNum := if previous then w.lastSeqNum else w.seqNum;
    if maxOut < RT_HEADER_LENGTH then (w, None)
    else
      var sealed := Context(w, previous).Seal(typ, w.cipher.version, Sequence64(epoch, seqNum), plain);
      if sealed.None? || |sealed.value| > maxOut - RT_HEADER_LENGTH then (w, None)
      else
        var next := (seqNum + 1) % SEQUENCE_LIMIT;
        var w' := if previous then w.(lastSeqNum := next) else w.(seqNum := next);
        if next == 0 || |sealed.value| >= 0x1_0000 then (w', None)
        else (w', Some(Sealed(Record(typ, w.cipher.version, epoch, seqNum, sealed.value), plain, entry)))
  }

  function EpochUsed(w: WriteState, previous: bool): nat
    requires previous ==> w.epoch >= 1
  {
    if previous then w.epoch - 1 else w.epoch
  }

  function Context(w: WriteState, previous: bool): Cipher {
    if previous then w.lastCipher else w.cipher
  }

  // A record is sealed just when there is room for a header and what the cipher makes of the
  // plaintext, and the epoch has a number left after this one. It has the epoch's next number, the
  // version of the current cipher whichever context seals it, and the counter moves on by one.
  lemma {:induction false} SealedRecordIs(w: WriteState, previous: bool, typ: nat, plain: seq<Byte>, maxOut: nat,
                                          entry: nat)
    requires WriteOk(w) && (previous ==> w.epoch >= 1)
    ensures var (w', sealed) := SealRecord(w, previous, typ, plain, maxOut, entry);
            var number, epoch := if previous then w.lastSeqNum else w.seqNum, if previous then w.epoch - 1 else w.epoch;
            var c := if previous then w.lastCipher else w.cipher;
            var body := c.Seal(typ, w.cipher.version, epoch * 0x1_0000_0000_0000 + number, plain);
            && (sealed.Some? <==> body.Some? && 13 + |body.value| <= maxOut && |body.value| < 0x1_0000
                                  && number + 1 < 0x1_0000_0000_0000)
            && (sealed.Some? ==>
                  && sealed.value == Sealed(Record(typ, w.cipher.version, epoch, number, body.value), plain, entry)
                  && w' == if previous then w.(lastSeqNum := number + 1) else w.(seqNum := number + 1))
  {
  }

  datatype Sealing = Sealing(sender: Sender, result: SealResult, sealed: seq<Sealed>)

  // seal_next_message: the write context is chosen by the epoch the message was queued in.
  function SealNextMessage(s: Sender, maxOut: nat): (res: Sealing)
    requires s.written < |s.out|
    ensures |res.sealed| == if res.result == SealPartial || res.result == SealSuccess then 1 else 0
    ensures res.sender.out == s.out && res.sender.written == s.written
  {
    var msg := s.out[s.written];
    var previous := s.ws.epoch >= 1 && msg.epoch == s.ws.epoch - 1;
    if !previous && msg.epoch != s.ws.epoch then Sealing(s, SealError, [])
    else if msg.isCcs then SealCcs(s, previous, maxOut)
    else
      var f := ParseFragment(msg.data);
      if f.None? || !WholeMessage(f.value, msg.data) || s.offset > |f.value.body| then Sealing(s, SealError, [])
      else SealFragment(s, previous, f.value, maxOut)
  }

  function SealCcs(s: Sender, previous: bool, maxOut: nat): (res: Sealing)
    requires previous ==> s.ws.epoch >= 1
    ensures |res.sealed| == if res.result == SealPartial || res.result == SealSuccess then 1 else 0
    ensures res.sender.out == s.out && res.sender.written == s.written
  {
    if maxOut < 1 + RT_HEADER_LENGTH + Context(s.ws, previous).MaxOverhead() then Sealing(s, SealNoProgress, [])
    else
      var (w, sealed) := SealRecord(s.ws, previous, RT_CHANGE_CIPHER_SPEC, [MT_CCS], maxOut, s.written);
      if sealed.None? then Sealing(s.(ws := w), SealError, []) else Sealing(s.(ws := w), SealSuccess, [sealed.value])
  }

  // As much of the rest of the message as the packet has room for.
  function SealFragment(s: Sender, previous: bool, f: Fragment, maxOut: nat): (res: Sealing)
    requires previous ==> s.ws.epoch >= 1
    requires f.header.Fits() && |f.body| == f.header.fragLen && s.offset <= |f.body|
    ensures |res.sealed| == if res.result == SealPartial || res.result == SealSuccess then 1 else 0
    ensures res.sender.out == s.out && res.sender.written == s.written
  {
    var overhead := RT_HEADER_LENGTH + Context(s.ws, previous).MaxOverhead();
    var prefix := RT_HEADER_LENGTH + Context(s.ws, previous).ExplicitNonceLen();
    if maxOut < HM_HEADER_LENGTH + 1 + overhead || maxOut < prefix then Sealing(s, SealNoProgress, [])
    else
      var left := |f.body| - s.offset;
      var room := maxOut - HM_HEADER_LENGTH - overhead;
      var todo := if left > room then room else left;
      var (w, sealed) := SealRecord(s.ws, previous, RT_HANDSHAKE, FragmentBytes(f, s.offset, todo), maxOut, s.written);
      FinishFragment(s.(ws := w), sealed, todo, left)
  }

  function FinishFragment(s: Sender, sealed: Option<Sealed>, todo: nat, left: nat): Sealing {
    if sealed.None? then Sealing(s, SealError, [])
    else if todo == left then Sealing(s.(offset := 0), SealSuccess, [sealed.value])
    else Sealing(s.(offset := s.offset + todo), SealPartial, [sealed.value])
  }

  // The fragment of f's message that holds len bytes from off on.
  function FragmentBytes(f: Fragment, off: nat, len: nat): seq<Byte>
    requires f.header.Fits() && off + len <= |f.body| == f.header.fragLen
  {
    HeaderBytes(f.header.(fragOff := off, fragLen := len)) + f.body[off..off + len]
  }

  predicate WholeMessage(f: Fragment, data: seq<Byte>) {
    && f.header.fragOff == 0
    && f.header.fragLen == |f.body| && f.header.msgLen == |f.body|
    && HM_HEADER_LENGTH + |f.body| == |data|
  }

  function PacketBytes(recs: seq<Sealed>): seq<Byte> {
    if recs == [] then [] else RecordBytes(recs[0].rec) + PacketBytes(recs[1..])
  }

  function PacketLen(recs: seq<Sealed>): nat {
    if recs == [] then 0 else RT_HEADER_LENGTH + |recs[0].rec.body| + PacketLen(recs[1..])
  }

  lemma {:induction false} PacketBytesLength(recs: seq<Sealed>)
    ensures |PacketBytes(recs)| == PacketLen(recs)
  {
    if recs != [] {
      PacketBytesLength(recs[1..]);
    }
  }

  lemma {:induction false} PacketBytesJoin(a: seq<Sealed>, b: seq<Sealed>)
    ensures PacketBytes(a + b) == PacketBytes(a) + PacketBytes(b)
    decreases |a|
  {
    if a == [] {
      assert a + b == b;
    } else {
      PacketBytesJoin(a[1..], b);
      assert (a + b)[1..] == a[1..] + b;
    }
  }

  // The loop of seal_next_packet: what is sealed into the rest of the packet, and
  // whether it ended without an error.
  function SealMessages(s: Sender, maxOut: nat): (res: (Sender, bool, seq<Sealed>))
    requires s.written <= |s.out|
    decreases |s.out| - s.written, 1
  {
    if s.written == |s.out| then (s, true, []) else SealRest(SealNextMessage(s, maxOut), maxOut)
  }

  function SealRest(r: Sealing, maxOut: nat): (res: (Sender, bool, seq<Sealed>))
    requires r.sender.written < |r.sender.out| && (r.result == SealSuccess ==> |r.sealed| == 1)
    decreases |r.sender.out| - r.sender.written, 0
  {
    match r.result
    case SealError => (r.sender, false, [])
    case SealNoProgress => (r.sender, true, [])
    case SealPartial => (r.sender, true, r.sealed)
    case SealSuccess =>
      var len := RT_HEADER_LENGTH + |r.sealed[0].rec.body|;
      var (s', ok, recs) := SealMessages(r.sender.(written := r.sender.written + 1),
                                           if len <= maxOut then maxOut - len else 0);
      (s', ok, r.sealed + recs)
  }

  // seal_next_packet: it is an error to make no progress at all.
  function SealNextPacket(s: Sender, maxOut: nat): (res: (Sender, bool, seq<Sealed>))
    requires s.written < |s.out|
  {
    var (s', ok, recs) := SealMessages(s, maxOut);
    (s', ok && recs != [], recs)
  }

  // One round of the loop in send_flight: a failed transport write rewinds to where the
  // packet began, keeping the sequence numbers it used up.
  function SendPacket(s: Sender, mtu: nat, accepted: bool): (res: (Sender, bool, seq<Sealed>))
    requires s.written < |s.out|
  {
    var (s', ok, recs) := SealNextPacket(s, mtu);
    if ok && !accepted then (s'.(written := s.written, offset := s.offset), true, recs) else (s', ok, recs)
  }

  // add_outgoing.
  function AddOutgoing(s: Sender, isCcs: bool, data: seq<Byte>): (res: (Sender, bool))
  {
    var s1 := if s.complete then s.(out := [], written := 0, offset := 0, complete := false) else s;
    if |s1.out| >= MAX_FLIGHT || |data| > 0xffff_ffff then (s1, false)
    else (s1.(out := s1.out + [Outgoing(data, s1.ws.epoch, isCcs)],
              writeSeq := if isCcs then s1.writeSeq else (s1.writeSeq + 1) % 0x1_0000), true)
  }

  // dtls1_init_message, dtls1_finish_message and dtls1_add_message in a row.
  function AddMessage(s: Sender, typ: nat, body: seq<Byte>): (res: (Sender, bool))
    requires typ < 0x100 && s.writeSeq < 0x1_0000
  {
    if |body| >= 0x100_0000 then (s, false) else AddOutgoing(s, false, MessageBytes(typ, s.writeSeq, body))
  }

  function AddChangeCipherSpec(s: Sender): (res: (Sender, bool)) {
    AddOutgoing(s, true, [])
  }

  // A message is queued just when it is short enough and there is room, behind what is there or,
  // after a flight that was flushed, as the first of a new one. It takes the next message number.
  lemma {:induction false} QueuedIfRoom(s: Sender, typ: nat, body: seq<Byte>)
    requires typ < 0x100 && s.writeSeq < 0x1_0000
    ensures var (s', ok) := AddMessage(s, typ, body);
            var before := if s.complete then [] else Flight(s.out);
            && (ok <==> |body| < 0x100_0000 && |before| < 7)
            && (ok ==>
                  && Flight(s'.out) ==
                     before + [Entry(false, s.ws.epoch, HmHeader(typ, |body|, s.writeSeq, 0, |body|), body)]
                  && At(s') == (if s.complete then Pos(0, 0) else At(s)) && !s'.complete
                  && s'.writeSeq == (s.writeSeq + 1) % 0x1_0000 && s'.ws == s.ws)
            && (!ok ==> s' == s)
  {
    if |body| < 0x100_0000 {
      MessageParses(typ, s.writeSeq, body);
      Queueing(s, false, MessageBytes(typ, s.writeSeq, body));
    }
  }

  // So is a ChangeCipherSpec, which takes no number.
  lemma {:induction false} CcsQueuedIfRoom(s: Sender)
    requires s.writeSeq < 0x1_0000
    ensures var (s', ok) := AddChangeCipherSpec(s);
            var before := if s.complete then [] else Flight(s.out);
            && (ok <==> |before| < 7)
            && (ok ==>
                  && Flight(s'.out) == before + [Entry(true, s.ws.epoch, HmHeader(0, 0, 0, 0, 0), [])]
                  && At(s') == (if s.complete then Pos(0, 0) else At(s)) && !s'.complete
                  && s'.writeSeq == s.writeSeq && s'.ws == s.ws)
            && (!ok ==> s' == s)
  {
    Queueing(s, true, []);
  }

  lemma {:induction false} Queueing(s: Sender, isCcs: bool, data: seq<Byte>)
    ensures var s' := AddOutgoing(s, isCcs, data).0;
            AddOutgoing(s, isCcs, data).1 ==>
              Flight(s'.out) == (if s.complete then [] else Flight(s.out))
                                + [EntryOf(Outgoing(data, s.ws.epoch, isCcs))]
  {
    var (s', ok) := AddOutgoing(s, isCcs, data);
    if ok {
      assert s'.out[..|s'.out| - 1] == if s.complete then [] else s.out;
    }
  }

  // dtls1_set_write_state.
  function SetWriteState(s: Sender, cipher: Cipher): Sender {
    s.(ws := WriteState((s.ws.epoch + 1) % 0x1_0000, cipher, 0, s.ws.cipher, s.ws.seqNum))
  }

  // dtls1_retransmit_outgoing_messages, up to the call of send_flight.
  function Rewind(s: Sender): Sender {
    s.(written := 0, offset := 0)
  }

  // The invariant under every operation.

  ghost predicate RecordOk(w: WriteState, maxOut: nat, w': WriteState, sealed: Option<Sealed>) {
    && w' == w.(seqNum := w'.seqNum, lastSeqNum := w'.lastSeqNum) && WriteOk(w')
    && (sealed.Some? ==> sealed.value.rec.Fits() && RT_HEADER_LENGTH + |sealed.value.rec.body| <= maxOut)
  }

  lemma SealRecordAdvances(w: WriteState, previous: bool, typ: nat, plain: seq<Byte>, maxOut: nat, entry: nat)
    requires WriteOk(w) && typ < 0x100 && (previous ==> w.epoch >= 1)
    ensures var (w', sealed) := SealRecord(w, previous, typ, plain, maxOut, entry); RecordOk(w, maxOut, w', sealed)
  {
  }

  // What one seal_next_message leaves behind.
  ghost predicate SealingOk(s: Sender, maxOut: nat, r: Sealing) {
    && s.written < |s.out|
    && r.sender == s.(ws := r.sender.ws, offset := r.sender.offset)
    && |r.sealed| == (if r.result == SealPartial || r.result == SealSuccess then 1 else 0)
    && (if r.result == SealSuccess then Inv(r.sender.(written := s.written + 1)) else Inv(r.sender))
    && (r.sealed != [] ==> r.sealed[0].rec.Fits() && RT_HEADER_LENGTH + |r.sealed[0].rec.body| <= maxOut)
  }

  lemma {:induction false} SealNextMessageKeepsInv(s: Sender, maxOut: nat)
    requires Inv(s) && s.written < |s.out|
    ensures SealingOk(s, maxOut, SealNextMessage(s, maxOut))
  {
    var msg := s.out[s.written];
    EntryIsOk(s.out, s.written);
    FlightAt(s.out, s.written);
    var previous := s.ws.epoch >= 1 && msg.epoch == s.ws.epoch - 1;
    if previous || msg.epoch == s.ws.epoch {
      if msg.isCcs {
        SealRecordAdvances(s.ws, previous, RT_CHANGE_CIPHER_SPEC, [MT_CCS], maxOut, s.written);
      } else {
        SealFragmentAdvances(s, previous, ParseFragment(msg.data).value, maxOut);
      }
    }
  }

  lemma {:induction false} SealFragmentAdvances(s: Sender, previous: bool, f: Fragment, maxOut: nat)
    requires Inv(s) && s.written < |s.out| && (previous ==> s.ws.epoch >= 1)
    requires var m := Flight(s.out)[s.written]; !m.isCcs && m.body == f.body
    requires f.header.Fits() && |f.body| == f.header.fragLen
    ensures SealingOk(s, maxOut, SealFragment(s, previous, f, maxOut))
  {
  }

  ghost predicate PacketOk(s: Sender, maxOut: nat, s': Sender, recs: seq<Sealed>) {
    && Inv(s')
    && s' == s.(ws := s'.ws, written := s'.written, offset := s'.offset)
    && (forall i :: 0 <= i < |recs| ==> recs[i].rec.Fits())
    && PacketLen(recs) <= maxOut
  }

  lemma {:induction false} SealMessagesKeepsInv(s: Sender, maxOut: nat)
    requires Inv(s)
    ensures var (s', ok, recs) := SealMessages(s, maxOut); PacketOk(s, maxOut, s', recs)
    decreases |s.out| - s.written, 1
  {
    if s.written < |s.out| {
      SealNextMessageKeepsInv(s, maxOut);
      SealRestKeepsInv(s, SealNextMessage(s, maxOut), maxOut);
    }
  }

  lemma {:induction false} SealRestKeepsInv(s: Sender, r: Sealing, maxOut: nat)
    requires SealingOk(s, maxOut, r)
    ensures var (s', ok, recs) := SealRest(r, maxOut); PacketOk(s, maxOut, s', recs)
    decreases |s.out| - s.written, 0
  {
    if r.result == SealSuccess {
      var len := RT_HEADER_LENGTH + |r.sealed[0].rec.body|;
      var next := r.sender.(written := s.written + 1);
      SealMessagesKeepsInv(next, maxOut - len);
      var (s', ok, recs) := SealMessages(next, maxOut - len);
      assert (r.sealed + recs)[1..] == recs;
      assert SealRest(r, maxOut) == (s', ok, r.sealed + recs);
    }
  }

  // What the cipher of the next entry can add to a record.
  function NextOverhead(s: Sender): nat
    requires s.written < |s.out|
  {
    Context(s.ws, s.out[s.written].epoch != s.ws.epoch).MaxOverhead()
  }

  // The room left is too little for a ChangeCipherSpec, or for the next byte of the next message.
  ghost predicate TooLittle(s: Sender, room: nat)
    requires s.written < |s.out|
  {
    room < if s.out[s.written].isCcs then 14 + NextOverhead(s) else 26 + NextOverhead(s)
  }

  // The packet ends with a piece of the next message that is as long as there was room for it.
  ghost predicate EndsInPiece(s: Sender, recs: seq<Sealed>, room: nat)
    requires s.written < |s.out|
  {
    && recs != [] && s.offset > 0
    && var last := recs[|recs| - 1];
       last.entry == s.written && |last.plain| + NextOverhead(s) == room + |last.rec.body|
  }

  ghost predicate IsFull(s: Sender, recs: seq<Sealed>, room: nat) {
    s.written < |s.out| ==> TooLittle(s, room) || EndsInPiece(s, recs, room)
  }

  lemma {:induction false} MessageFillsRoom(s: Sender, maxOut: nat)
    requires Inv(s) && s.written < |s.out|
    ensures var r := SealNextMessage(s, maxOut);
            && (r.result == SealNoProgress ==> r.sender == s && TooLittle(s, maxOut))
            && (r.result == SealPartial ==>
                  && RT_HEADER_LENGTH + |r.sealed[0].rec.body| <= maxOut && r.sender.written < |r.sender.out|
                  && EndsInPiece(r.sender, r.sealed, maxOut - RT_HEADER_LENGTH - |r.sealed[0].rec.body|))
  {
    EntryIsOk(s.out, s.written);
    SealNextMessageKeepsInv(s, maxOut);
  }

  lemma {:induction false} MessagesFillRoom(s: Sender, maxOut: nat)
    requires Inv(s)
    ensures var (s', ok, recs) := SealMessages(s, maxOut);
            PacketLen(recs) <= maxOut && (ok ==> IsFull(s', recs, maxOut - PacketLen(recs)))
    decreases |s.out| - s.written, 1
  {
    if s.written < |s.out| {
      MessageFillsRoom(s, maxOut);
      SealNextMessageKeepsInv(s, maxOut);
      RestFillsRoom(s, SealNextMessage(s, maxOut), maxOut);
    }
  }

  lemma {:induction false} RestFillsRoom(s: Sender, r: Sealing, maxOut: nat)
    requires SealingOk(s, maxOut, r)
    requires r.result == SealNoProgress ==> r.sender == s && TooLittle(s, maxOut)
    requires r.result == SealPartial ==>
               && RT_HEADER_LENGTH + |r.sealed[0].rec.body| <= maxOut
               && EndsInPiece(r.sender, r.sealed, maxOut - RT_HEADER_LENGTH - |r.sealed[0].rec.body|)
    ensures var (s', ok, recs) := SealRest(r, maxOut);
            PacketLen(recs) <= maxOut && (ok ==> IsFull(s', recs, maxOut - PacketLen(recs)))
    decreases |s.out| - s.written, 0
  {
    if r.result == SealSuccess {
      var len := RT_HEADER_LENGTH + |r.sealed[0].rec.body|;
      var next := r.sender.(written := s.written + 1);
      MessagesFillRoom(next, maxOut - len);
      var (s', ok, recs) := SealMessages(next, maxOut - len);
      assert (r.sealed + recs)[1..] == recs && SealRest(r, maxOut) == (s', ok, r.sealed + recs);
      assert recs != [] ==> (r.sealed + recs)[|r.sealed + recs| - 1] == recs[|recs| - 1];
    } else if r.sealed != [] {
      assert r.sealed[1..] == [];
    }
  }

  // No room is given away: a packet ends where the flight does, or with as long a piece of a message
  // as fits, or where not even one byte more fits.
  lemma {:induction false} PacketIsFull(s: Sender, maxOut: nat)
    requires Inv(s) && s.written < |s.out|
    ensures var (s', ok, recs) := SealNextPacket(s, maxOut);
            && |PacketBytes(recs)| <= maxOut
            && (ok ==> IsFull(s', recs, maxOut - |PacketBytes(recs)|))
  {
    MessagesFillRoom(s, maxOut);
    PacketBytesLength(SealNextPacket(s, maxOut).2);
  }

  lemma {:induction false} AddOutgoingKeepsInv(s: Sender, isCcs: bool, data: seq<Byte>)
    requires Inv(s) && EntryOk(Outgoing(data, s.ws.epoch, isCcs))
    ensures Inv(AddOutgoing(s, isCcs, data).0)
  {
    var (s', ok) := AddOutgoing(s, isCcs, data);
    if ok {
      assert s'.out[..|s'.out| - 1] == if s.complete then [] else s.out;
    }
  }
}
