// When a flight can be sealed to its end: under ciphers that seal, with room for the least
// record and sequence numbers left, no packet fails and every packet makes progress.

module DtlsSealing {
  import opened Wire
  import opened Ciphers
  import opened DtlsSender
  import F = Fragmentation

  // A cipher that seals whatever fits a record, with room to spare in a packet.
  ghost predicate Seals(c: Cipher, version: nat, mtu: nat) {
    && c.Sound() && c.version == version && c.MaxOverhead() + 26 <= mtu <= MAX_PLAIN_LENGTH + RT_HEADER_LENGTH
    && forall typ: nat, s: nat, plain: seq<Byte> :: |plain| <= MAX_PLAIN_LENGTH ==> c.seal(typ, version, s, plain).Some?
  }

  ghost predicate BothSeal(w: WriteState, version: nat, mtu: nat) {
    Seals(w.cipher, version, mtu) && (w.epoch >= 1 ==> Seals(w.lastCipher, version, mtu))
  }

  predicate LiveEpoch(w: WriteState, epoch: nat) {
    epoch == w.epoch || epoch + 1 == w.epoch
  }

  predicate AllLive(w: WriteState, out: seq<Outgoing>) {
    forall p :: 0 <= p < |out| ==> LiveEpoch(w, out[p].epoch)
  }

  // n sequence numbers are left in either epoch.
  predicate Left(w: WriteState, n: nat) {
    w.seqNum + n < SEQUENCE_LIMIT && w.lastSeqNum + n < SEQUENCE_LIMIT
  }

  // At most n numbers were used.
  ghost predicate Spends(w: WriteState, n: nat, w': WriteState) {
    && w' == w.(seqNum := w'.seqNum, lastSeqNum := w'.lastSeqNum)
    && w.seqNum <= w'.seqNum <= w.seqNum + n && w.lastSeqNum <= w'.lastSeqNum <= w.lastSeqNum + n
  }

  // A record as sealed for packets of moderate size.
  predicate Moderate(version: nat, x: Sealed) {
    x.rec.version == version && |x.rec.body| <= MAX_ENCRYPTED_LENGTH && |x.plain| <= MAX_PLAIN_LENGTH
  }

  lemma {:induction false} RecordSeals(w: WriteState, previous: bool, typ: nat, plain: seq<Byte>, maxOut: nat,
                                       entry: nat, version: nat, mtu: nat)
    requires WriteOk(w) && (previous ==> w.epoch >= 1) && BothSeal(w, version, mtu) && Left(w, 1)
    requires RT_HEADER_LENGTH + Context(w, previous).MaxOverhead() + |plain| <= maxOut <= mtu
    ensures var (w', sealed) := SealRecord(w, previous, typ, plain, maxOut, entry);
            sealed.Some? && Spends(w, 1, w') && Moderate(version, sealed.value)
  {
  }

  // What is left to send from a position on: the bytes, and one for each message.
  function Work(fl: seq<Entry>, p: Pos): int {
    WorkFrom(fl, p.entry) - p.off
  }

  function WorkFrom(fl: seq<Entry>, i: nat): nat
    decreases |fl| - i
  {
    if i >= |fl| then 0 else |fl[i].body| + 1 + WorkFrom(fl, i + 1)
  }

  lemma {:induction false} CoversWork(fl: seq<Entry>, p: Pos, recs: seq<Sealed>, q: Pos)
    requires F.Covers(fl, p, recs, q) && PosOk(fl, p)
    ensures 0 <= Work(fl, q) <= Work(fl, p) - |recs|
    decreases |recs|
  {
    if recs != [] {
      F.PieceKeepsPosition(fl, p, recs[0]);
      CoversWork(fl, F.After(fl[p.entry], p, F.PieceLen(fl[p.entry], recs[0])), recs[1..], q);
    }
  }

  // One step of sealing.
  ghost predicate Made(s: Sender, r: Sealing, version: nat) {
    && r.result != SealError && Spends(s.ws, |r.sealed|, r.sender.ws)
    && forall i :: 0 <= i < |r.sealed| ==> Moderate(version, r.sealed[i])
  }

  lemma {:induction false} CcsSeals(s: Sender, previous: bool, maxOut: nat, version: nat, mtu: nat)
    requires WriteOk(s.ws) && (previous ==> s.ws.epoch >= 1) && BothSeal(s.ws, version, mtu) && Left(s.ws, 1)
    requires maxOut <= mtu
    ensures var r := SealCcs(s, previous, maxOut); Made(s, r, version) && (maxOut == mtu ==> r.sealed != [])
  {
    if maxOut >= 1 + RT_HEADER_LENGTH + Context(s.ws, previous).MaxOverhead() {
      RecordSeals(s.ws, previous, RT_CHANGE_CIPHER_SPEC, [MT_CCS], maxOut, s.written, version, mtu);
    }
  }

  lemma {:induction false} FragmentSeals(s: Sender, previous: bool, f: Fragment, maxOut: nat, version: nat, mtu: nat)
    requires WriteOk(s.ws) && (previous ==> s.ws.epoch >= 1) && BothSeal(s.ws, version, mtu) && Left(s.ws, 1)
    requires f.header.Fits() && |f.body| == f.header.fragLen && s.offset <= |f.body| && maxOut <= mtu
    ensures var r := SealFragment(s, previous, f, maxOut);
            Made(s, r, version) && (maxOut == mtu ==> r.sealed != [])
  {
    var overhead := RT_HEADER_LENGTH + Context(s.ws, previous).MaxOverhead();
    if maxOut >= HM_HEADER_LENGTH + 1 + overhead {
      var left, room := |f.body| - s.offset, maxOut - HM_HEADER_LENGTH - overhead;
      var todo := if left > room then room else left;
      RecordSeals(s.ws, previous, RT_HANDSHAKE, FragmentBytes(f, s.offset, todo), maxOut, s.written, version, mtu);
    }
  }

  lemma {:induction false} MessageSeals(s: Sender, maxOut: nat, version: nat, mtu: nat)
    requires Inv(s) && s.written < |s.out| && AllLive(s.ws, s.out) && BothSeal(s.ws, version, mtu) && Left(s.ws, 1)
    requires maxOut <= mtu
    ensures var r := SealNextMessage(s, maxOut); Made(s, r, version) && (maxOut == mtu ==> r.sealed != [])
  {
    var msg := s.out[s.written];
    EntryIsOk(s.out, s.written);
    FlightAt(s.out, s.written);
    var previous := s.ws.epoch >= 1 && msg.epoch == s.ws.epoch - 1;
    if msg.isCcs {
      CcsSeals(s, previous, maxOut, version, mtu);
    } else {
      FragmentSeals(s, previous, ParseFragment(msg.data).value, maxOut, version, mtu);
    }
  }

  ghost predicate PacketMade(s: Sender, all: (Sender, bool, seq<Sealed>), version: nat) {
    && all.1 && Spends(s.ws, |all.2|, all.0.ws)
    && forall i :: 0 <= i < |all.2| ==> Moderate(version, all.2[i])
  }

  // What sealing needs of a sender, up to the end of its flight.
  ghost predicate Ready(s: Sender, version: nat, mtu: nat) {
    && Inv(s) && AllLive(s.ws, s.out) && BothSeal(s.ws, version, mtu)
    && Left(s.ws, Work(Flight(s.out), At(s)))
  }

  lemma {:induction false} MessagesSeal(s: Sender, maxOut: nat, version: nat, mtu: nat)
    requires Ready(s, version, mtu) && maxOut <= mtu
    ensures PacketMade(s, SealMessages(s, maxOut), version)
    ensures maxOut == mtu && s.written < |s.out| ==> SealMessages(s, maxOut).2 != []
    decreases |s.out| - s.written, 1
  {
    if s.written < |s.out| {
      WorkIsLeft(s);
      MessageSeals(s, maxOut, version, mtu);
      SealNextMessageKeepsInv(s, maxOut);
      F.SealNextMessageEmits(s, maxOut);
      RestSeals(s, SealNextMessage(s, maxOut), maxOut, version, mtu);
    }
  }

  lemma {:induction false} RestSeals(s: Sender, r: Sealing, maxOut: nat, version: nat, mtu: nat)
    requires Ready(s, version, mtu) && maxOut <= mtu && SealingOk(s, maxOut, r) && Made(s, r, version)
    requires F.Emits(Flight(s.out)[s.written], s, r)
    ensures PacketMade(s, SealRest(r, maxOut), version)
    ensures r.sealed != [] ==> SealRest(r, maxOut).2 != []
    decreases |s.out| - s.written, 0
  {
    if r.result == SealSuccess {
      var next := r.sender.(written := s.written + 1);
      var rest := maxOut - (RT_HEADER_LENGTH + |r.sealed[0].rec.body|);
      NextIsReady(s, r, maxOut, version, mtu);
      MessagesSeal(next, rest, version, mtu);
      PacketJoins(s, r, SealMessages(next, rest), version);
      var tail := SealMessages(next, rest);
      assert SealRest(r, maxOut) == (tail.0, tail.1, r.sealed + tail.2);
    }
  }

  lemma {:induction false} NextIsReady(s: Sender, r: Sealing, maxOut: nat, version: nat, mtu: nat)
    requires Ready(s, version, mtu) && SealingOk(s, maxOut, r) && Made(s, r, version) && r.result == SealSuccess
    requires F.Emits(Flight(s.out)[s.written], s, r)
    ensures Ready(r.sender.(written := s.written + 1), version, mtu)
  {
    WorkIsLeft(s);
  }

  lemma PacketJoins(s: Sender, r: Sealing, tail: (Sender, bool, seq<Sealed>), version: nat)
    requires Made(s, r, version) && PacketMade(r.sender.(written := s.written + 1), tail, version)
    ensures PacketMade(s, (tail.0, tail.1, r.sealed + tail.2), version)
  {
  }

  lemma {:induction false} WorkIsLeft(s: Sender)
    requires Inv(s) && s.written < |s.out|
    ensures Work(Flight(s.out), At(s)) >= 1 + WorkFrom(Flight(s.out), s.written + 1)
  {
  }

  // One packet of the flight is sealed and leaves less to do.
  lemma {:induction false} PacketSeals(s: Sender, version: nat, mtu: nat)
    requires Ready(s, version, mtu) && s.written < |s.out|
    ensures var (s', ok, recs) := SendPacket(s, mtu, true);
            && ok && (forall i :: 0 <= i < |recs| ==> Moderate(version, recs[i]))
            && Ready(s', version, mtu) && s' == s.(ws := s'.ws, written := s'.written, offset := s'.offset)
            && F.Covers(Flight(s.out), At(s), recs, At(s'))
            && 0 <= Work(Flight(s.out), At(s')) < Work(Flight(s.out), At(s))
            && Spends(s.ws, |recs|, s'.ws)
  {
    MessagesSeal(s, mtu, version, mtu);
    SealMessagesKeepsInv(s, mtu);
    F.SealMessagesCovers(s, mtu);
    var (s', ok, recs) := SealMessages(s, mtu);
    CoversWork(Flight(s.out), At(s), recs, At(s'));
  }
}
