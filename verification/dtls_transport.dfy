// A DTLS sender and receiver over a network that drops, duplicates and reorders whatever
// the sender's transport took: a state machine whose steps are the operations of both
// sides, and what holds in every run.

module DtlsTransport {
  import opened Wire
  import opened Ciphers
  import opened Reassembly
  import opened ReplayWindow
  import R = DtlsReceiver
  import S = DtlsSender
  import F = Fragmentation

  const SEQ_LIMIT := 0x1_0000

  // A sealed record and, for a handshake record, which queued message it carries.
  datatype Sent = Sent(x: S.Sealed, idx: nat)

  datatype Sys = Sys(
    s: S.Sender,
    queued: seq<R.Message>,       // every message handed to add_message, in order
    msgEpoch: seq<nat>,           // the write epoch each was queued in
    log: seq<Sent>,               // every record sealed, in order
    packets: seq<seq<Sent>>,      // every datagram the transport took
    r: R.Receiver,
    alive: bool,                  // false once reading has failed
    buf: seq<Byte>,               // what is left of the datagram being read
    inbuf: seq<Sent>,             // the records in buf
    delivered: seq<R.Message>,    // every message handed out and done with, in order
    current: Option<R.Message>,   // the message handed out last, until it is done with
    via: map<nat, Sent>)          // for each message, the last record accepted for it

  datatype Step =
    | Queue(typ: nat, body: seq<Byte>)
    | QueueCcs
    | Flush
    | Packet(mtu: nat, accepted: bool)
    | Retransmit
    | ChangeWrite
    | Take(i: nat)
    | Open
    | OpenCcs
    | Get
    | Next
    | ChangeRead

  type Keys = nat -> Cipher

  function Messages(out: seq<S.Outgoing>): nat {
    if out == [] then 0 else Messages(out[..|out| - 1]) + (if out[|out| - 1].isCcs then 0 else 1)
  }

  // The queued message behind entry p of the flight: the flight is the tail of the queue.
  function IndexOf(queued: seq<R.Message>, out: seq<S.Outgoing>, p: nat): int
    requires p <= |out|
  {
    |queued| - Messages(out) + Messages(out[..p])
  }

  function Tag(queued: seq<R.Message>, out: seq<S.Outgoing>, recs: seq<S.Sealed>): seq<Sent> {
    if recs == [] then []
    else
      var p := recs[|recs| - 1].entry;
      Tag(queued, out, recs[..|recs| - 1]) +
      [Sent(recs[|recs| - 1], if p <= |out| && IndexOf(queued, out, p) >= 0 then IndexOf(queued, out, p) else 0)]
  }

  function Records(sent: seq<Sent>): seq<S.Sealed> {
    seq(|sent|, i requires 0 <= i < |sent| => sent[i].x)
  }

  ghost function Init(keys: Keys): Sys {
    Sys(S.Sender([], 0, 0, false, S.WriteState(0, keys(0), 0, keys(0), 0), 0), [], [], [], [],
        R.Receiver(0, keys(0), {}, 0, seq(MAX_FLIGHT, _ => None), false, false), true, [], [], [], None, map[])
  }

  // When a step can be taken. A run may queue at most 65536 messages more than were
  // delivered, change either cipher at most 65535 times, and stops sealing at the
  // wraparound of a record sequence number.
  ghost predicate Enabled(keys: Keys, c: Sys, step: Step) {
    && |c.r.slots| == MAX_FLIGHT
    &&
       match step
    case Queue(typ, body) => typ < 0x100 && c.s.writeSeq < SEQ_LIMIT && |c.queued| < |c.delivered| + SEQ_LIMIT
    case QueueCcs => true
    case Flush => true
    case Packet(mtu, accepted) =>
      && c.s.written < |c.s.out|
      && var s' := S.SendPacket(c.s, mtu, accepted).0;
         s'.ws.seqNum >= c.s.ws.seqNum && s'.ws.lastSeqNum >= c.s.ws.lastSeqNum
    case Retransmit => true
    case ChangeWrite => c.s.ws.epoch + 1 < SEQ_LIMIT
    case Take(i) => i < |c.packets| && c.buf == []
    case Open => c.alive && c.buf != []
    case OpenCcs => c.alive && c.buf != []
    case Get => c.alive && R.CurrentComplete(c.r)
    case Next => c.alive && c.r.hasMessage && c.current.Some? && R.CurrentComplete(c.r)
    case ChangeRead => c.alive && c.r.rEpoch + 1 < SEQ_LIMIT
  }

  // The records left after used bytes of the datagram: all of it, or one record.
  function Rest(inbuf: seq<Sent>, buf: seq<Byte>, used: nat): seq<Sent> {
    if used == |buf| || inbuf == [] then [] else inbuf[1..]
  }

  // A handshake record the replay window newly accepts is noted for its message.
  ghost function Noted(c: Sys, accepted: set<nat>): map<nat, Sent> {
    if c.inbuf != [] && accepted != c.r.accepted && c.inbuf[0].x.rec.typ == RT_HANDSHAKE
    then c.via[c.inbuf[0].idx := c.inbuf[0]] else c.via
  }

  ghost function Apply(keys: Keys, maxLen: nat, c: Sys, step: Step): Sys
    requires Enabled(keys, c, step)
  {
    match step
    case Queue(typ, body) =>
      var (s', ok) := S.AddMessage(c.s, typ, body);
      if ok then c.(s := s', queued := c.queued + [R.Message(typ, body)], msgEpoch := c.msgEpoch + [c.s.ws.epoch])
      else c.(s := s')
    case QueueCcs => c.(s := S.AddChangeCipherSpec(c.s).0)
    case Flush => c.(s := c.s.(complete := true))
    case Packet(mtu, accepted) =>
      var (s', ok, recs) := S.SendPacket(c.s, mtu, accepted);
      var sent := Tag(c.queued, c.s.out, recs);
      c.(s := s', log := c.log + sent, packets := if ok && accepted then c.packets + [sent] else c.packets)
    case Retransmit => c.(s := S.Rewind(c.s))
    case ChangeWrite => c.(s := S.SetWriteState(c.s, keys(c.s.ws.epoch + 1)))
    case Take(i) => c.(buf := S.PacketBytes(Records(c.packets[i])), inbuf := c.packets[i])
    case Open =>
      var (r', status, used) := R.OpenHandshake(c.r, c.buf, maxLen);
      c.(r := r', alive := !status.Error?, buf := c.buf[used..], inbuf := Rest(c.inbuf, c.buf, used),
         via := Noted(c, r'.accepted))
    case OpenCcs =>
      var (r', status, used) := R.OpenChangeCipherSpec(c.r, c.buf, maxLen);
      c.(r := r', alive := !status.Error?, buf := c.buf[used..],
         inbuf := if used == 0 then c.inbuf else Rest(c.inbuf, c.buf, used),
         via := Noted(c, r'.accepted))
    case Get =>
      var (r', msg) := R.GetMessage(c.r);
      c.(r := r', current := msg)
    case Next => c.(r := R.NextMessage(c.r), delivered := c.delivered + [c.current.value], current := None)
    case ChangeRead =>
      var (r', ok) := R.SetReadState(c.r, keys(c.r.rEpoch + 1));
      c.(r := r', alive := ok)
  }

  // What an honest handshake record carries: a slice of its message under its header.
  ghost predicate CarriesSlice(plain: seq<Byte>, msg: R.Message, idx: nat, off: nat, len: nat) {
    && msg.typ < 0x100 && |msg.body| < 0x100_0000
    && off + len <= |msg.body|
    && plain == HeaderBytes(HmHeader(msg.typ, |msg.body|, idx % SEQ_LIMIT, off, len)) + msg.body[off..off + len]
  }

  ghost predicate IsSlice(plain: seq<Byte>, msg: R.Message, idx: nat) {
    exists off: nat, len: nat :: CarriesSlice(plain, msg, idx, off, len)
  }

  ghost predicate RecordOk(keys: Keys, queued: seq<R.Message>, msgEpoch: seq<nat>, e: Sent) {
    var rec := e.x.rec;
    && rec.Fits()
    && keys(rec.epoch).Open(rec.typ, rec.version, Sequence64(rec.epoch, rec.seqNum), rec.body) == Some(e.x.plain)
    && (rec.typ == RT_HANDSHAKE || rec.typ == RT_CHANGE_CIPHER_SPEC)
    && (rec.typ == RT_HANDSHAKE ==>
          && e.idx < |queued| == |msgEpoch| && rec.epoch == msgEpoch[e.idx]
          && IsSlice(e.x.plain, queued[e.idx], e.idx))
  }

  // The flight holds the last messages of the queue, each under its number and epoch.
  ghost predicate FlightOk(queued: seq<R.Message>, msgEpoch: seq<nat>, out: seq<S.Outgoing>) {
    && Messages(out) <= |queued| == |msgEpoch|
    && forall p :: 0 <= p < |out| && !out[p].isCcs ==> EntryOk(queued, msgEpoch, out, p)
  }

  ghost predicate EntryOk(queued: seq<R.Message>, msgEpoch: seq<nat>, out: seq<S.Outgoing>, p: nat)
    requires p < |out| && |queued| == |msgEpoch|
  {
    var k := IndexOf(queued, out, p);
    && 0 <= k < |queued|
    && out[p].epoch == msgEpoch[k]
    && queued[k].typ < 0x100 && |queued[k].body| < 0x100_0000
    && out[p].data == S.MessageBytes(queued[k].typ, k % SEQ_LIMIT, queued[k].body)
  }

  ghost predicate SenderOk(keys: Keys, s: S.Sender, queued: seq<R.Message>, msgEpoch: seq<nat>) {
    && S.Inv(s)
    && FlightOk(queued, msgEpoch, s.out)
    && s.writeSeq == |queued| % SEQ_LIMIT
    && (forall i :: 0 <= i < |msgEpoch| ==> msgEpoch[i] <= s.ws.epoch)
    && (forall i, j :: 0 <= i < j < |msgEpoch| ==> msgEpoch[i] <= msgEpoch[j])
    && s.ws.cipher == keys(s.ws.epoch)
    && (s.ws.epoch >= 1 ==> s.ws.lastCipher == keys(s.ws.epoch - 1))
  }

  // Sequence numbers in use stay below the counters.
  ghost predicate NumberOk(ws: S.WriteState, e: Sent) {
    && e.x.rec.epoch <= ws.epoch
    && (e.x.rec.epoch == ws.epoch ==> e.x.rec.seqNum < ws.seqNum)
    && (e.x.rec.epoch + 1 == ws.epoch ==> e.x.rec.seqNum < ws.lastSeqNum)
  }

  // Per epoch the log is in order of sequence number, and no record is sealed for a
  // message once one a whole flight later has been.
  ghost predicate Ordered(a: Sent, b: Sent) {
    && (a.x.rec.epoch == b.x.rec.epoch ==> a.x.rec.seqNum < b.x.rec.seqNum)
    && (a.x.rec.typ == b.x.rec.typ == RT_HANDSHAKE ==> a.idx < b.idx + MAX_FLIGHT)
  }

  ghost predicate LogOk(keys: Keys, ws: S.WriteState, queued: seq<R.Message>, msgEpoch: seq<nat>, log: seq<Sent>) {
    && (forall i :: 0 <= i < |log| ==> RecordOk(keys, queued, msgEpoch, log[i]) && NumberOk(ws, log[i]))
    && (forall i, j :: 0 <= i < j < |log| ==> Ordered(log[i], log[j]))
  }

  ghost predicate AllIn(sent: seq<Sent>, log: seq<Sent>) {
    forall i :: 0 <= i < |sent| ==> sent[i] in log
  }

  ghost predicate NetOk(c: Sys) {
    && (forall i :: 0 <= i < |c.packets| ==> AllIn(c.packets[i], c.log))
    && AllIn(c.inbuf, c.log)
    && c.buf == S.PacketBytes(Records(c.inbuf))
  }

  ghost predicate ViaOk(r: R.Receiver, log: seq<Sent>, via: map<nat, Sent>, k: nat) {
    && k in via && via[k].idx == k && via[k] in log
    && var rec := via[k].x.rec;
       && rec.typ == RT_HANDSHAKE && rec.epoch <= r.rEpoch
       && (rec.epoch == r.rEpoch ==> Sequence64(rec.epoch, rec.seqNum) in r.accepted)
  }

  // A held message is the queued one its number stands for, with the right bytes.
  ghost predicate HoldsPart(f: Frag, msg: R.Message) {
    && f.typ == msg.typ && f.msgLen == |msg.body|
    && forall j :: j in f.bytes ==> j < |msg.body| && f.bytes[j] == msg.body[j]
  }

  ghost predicate SlotMatches(r: R.Receiver, queued: seq<R.Message>, d: nat, log: seq<Sent>, via: map<nat, Sent>,
                              f: Frag) {
    var k := d + f.seqNum - r.readSeq;
    && 0 <= k < |queued| && HoldsPart(f, queued[k]) && ViaOk(r, log, via, k)
  }

  ghost predicate ReceiverOk(keys: Keys, r: R.Receiver, queued: seq<R.Message>, delivered: seq<R.Message>,
                             log: seq<Sent>, via: map<nat, Sent>) {
    && R.Inv(r) && r.cipher == keys(r.rEpoch)
    && delivered <= queued && r.readSeq == |delivered| % SEQ_LIMIT
    && |queued| <= |delivered| + SEQ_LIMIT
    && (forall k :: 0 <= k < |delivered| ==> ViaOk(r, log, via, k))
    && (forall i :: 0 <= i < MAX_FLIGHT && r.slots[i].Some? ==>
          SlotMatches(r, queued, |delivered|, log, via, r.slots[i].value))
  }

  // Every message handed out so far.
  function Handed(c: Sys): seq<R.Message> {
    c.delivered + if c.current.Some? then [c.current.value] else []
  }

  // The message at hand is the next one of the queue.
  ghost predicate CurrentOk(hasMessage: bool, current: Option<R.Message>, queued: seq<R.Message>, d: nat) {
    && hasMessage == current.Some?
    && (current.Some? ==> d < |queued| && current.value == queued[d])
  }

  ghost predicate Good(keys: Keys, c: Sys) {
    && SenderOk(keys, c.s, c.queued, c.msgEpoch)
    && LogOk(keys, c.s.ws, c.queued, c.msgEpoch, c.log)
    && NetOk(c)
    && ReceiverOk(keys, c.r, c.queued, c.delivered, c.log, c.via)
    && CurrentOk(c.r.hasMessage, c.current, c.queued, |c.delivered|)
  }

  // Every cipher in use is sound, and its records name a DTLS version.
  ghost predicate KeysOk(keys: Keys) {
    forall e: nat :: keys(e).Sound()
  }
}
