// The write side of a DTLS connection as the source keeps it: a seven-entry flight
// buffer, a write position and two sets of epoch state, all updated in place. Every
// method is shown to do what the value-level sender does.

module DtlsWriter {
  import opened Wire
  import opened Ciphers
  import opened DtlsSender
  import opened Fragmentation

  const MIN_MTU := 256 - 28
  const DEFAULT_MTU := 1500 - 28

  // No packet is larger than the MTU.
  ghost predicate Within(packets: seq<seq<Sealed>>, mtu: nat) {
    forall i :: 0 <= i < |packets| ==> |PacketBytes(packets[i])| <= mtu
  }

  // A datagram transport: a write takes the whole packet or fails. It is noted how many packets were
  // flushed, and what has failed.
  class DatagramBio {
    ghost var sent: seq<seq<Byte>>
    ghost var flushed: nat
    ghost var failures: nat

    constructor ()
      ensures sent == [] && flushed == 0 && failures == 0
    {
      sent, flushed, failures := [], 0, 0;
    }

    method Write(packet: seq<Byte>) returns (ret: int)
      modifies this
      ensures if ret > 0 then sent == old(sent) + [packet] && failures == old(failures)
              else sent == old(sent) && failures == old(failures) + 1
    {
      ret := *;
      if ret > 0 {
        sent := sent + [packet];
      } else {
        failures := failures + 1;
      }
    }

    method Flush() returns (ret: int)
      modifies this`flushed, this`failures
      ensures failures == old(failures) + if ret > 0 then 0 else 1
      ensures flushed == if ret > 0 then |sent| else old(flushed)
    {
      ret := *;
      if ret <= 0 {
        failures := failures + 1;
      } else {
        flushed := |sent|;
      }
    }

    method QueryMtu() returns (mtu: int) {
      mtu := *;
    }
  }

  // The sender after n packets that the transport took.
  function AfterPackets(s: Sender, mtu: nat, n: nat): (s': Sender)
    ensures s'.out == s.out
  {
    if n == 0 then s
    else
      var before := AfterPackets(s, mtu, n - 1);
      if before.written >= |before.out| then before
      else
        SealMessagesKeepsOut(before, mtu);
        DtlsSender.SendPacket(before, mtu, true).0
  }

  // How sending ends after n packets: the next one cannot be sealed, or the transport refuses
  // it, or there is none.
  ghost predicate Ends(s: Sender, mtu: nat, n: nat, sealFailed: bool, refused: bool, lost: seq<Sealed>, end: Sender) {
    var last := AfterPackets(s, mtu, n);
    if sealFailed then last.written < |last.out| && DtlsSender.SealNextPacket(last, mtu) == (end, false, lost)
    else if refused then
      last.written < |last.out| && end == DtlsSender.SendPacket(last, mtu, false).0 && lost == []
    else end == last && lost == []
  }

  // One round: a packet more, or the end.
  ghost predicate Goes(s: Sender, mtu: nat, n: nat, ret: int, sealFailed: bool, lost: seq<Sealed>, end: Sender) {
    if ret > 0 then end == AfterPackets(s, mtu, n + 1) else Ends(s, mtu, n, sealFailed, true, lost, end)
  }

  lemma RoundEnds(s: Sender, mtu: nat, n: nat, here: Sender, ret: int, sealFailed: bool, lost: seq<Sealed>, end: Sender)
    requires here == AfterPackets(s, mtu, n) && here.written < |here.out|
    requires Goes(here, mtu, 0, ret, sealFailed, lost, end)
    ensures Goes(s, mtu, n, ret, sealFailed, lost, end)
  {
  }

  // The same for the whole of send_flight, which can also fail when the transport is flushed.
  ghost predicate Stops(s: Sender, mtu: nat, n: nat, ret: int, sealFailed: bool, lost: seq<Sealed>, end: Sender) {
    Ends(s, mtu, n, sealFailed, false, lost, end) || (ret <= 0 && Ends(s, mtu, n, sealFailed, true, lost, end))
  }

  lemma {:induction false} SealMessagesKeepsOut(s: Sender, maxOut: nat)
    requires s.written <= |s.out|
    ensures SealMessages(s, maxOut).0.out == s.out
    decreases |s.out| - s.written
  {
    if s.written < |s.out| {
      var r := DtlsSender.SealNextMessage(s, maxOut);
      if r.result == SealSuccess {
        var len := RT_HEADER_LENGTH + |r.sealed[0].rec.body|;
        SealMessagesKeepsOut(Moved(r.sender), if len <= maxOut then maxOut - len else 0);
      }
    }
  }

  lemma {:induction false} PacketSent(fl: seq<Entry>, from: Pos, packets: seq<seq<Sealed>>, here: Pos,
                                      recs: seq<Sealed>, last: Pos, mtu: nat)
    requires Covers(fl, from, Flat(packets), here) && Covers(fl, here, recs, last)
    requires Within(packets, mtu) && |PacketBytes(recs)| <= mtu
    ensures Covers(fl, from, Flat(packets + [recs]), last) && Within(packets + [recs], mtu)
    ensures Datagrams(packets + [recs]) == Datagrams(packets) + [PacketBytes(recs)]
  {
    CoversJoin(fl, from, Flat(packets), here, recs, last);
    DatagramsGrow(packets, recs);
  }

  class Writer {
    const outgoing: array<Outgoing>
    var outgoingLen: nat
    var written: nat
    var offset: nat
    var complete: bool
    var wEpoch: nat
    var cipher: Cipher
    var seqNum: nat
    var lastCipher: Cipher
    var lastSeqNum: nat
    var writeSeq: nat
    var mtu: nat
    var shutdown: bool
    var noQueryMtu: bool
    const bio: DatagramBio
    ghost var st: Sender

    ghost predicate Valid()
      reads this, outgoing
    {
      Tied() && Inv(st)
    }

    // The ghost value and the fields say the same.
    ghost predicate Tied()
      reads this, outgoing
    {
      && outgoing.Length == MAX_FLIGHT && outgoingLen <= MAX_FLIGHT
      && st == Sender(outgoing[..outgoingLen], written, offset, complete, Ws(), writeSeq)
    }

    ghost function Ws(): WriteState
      reads this
    {
      WriteState(wEpoch, cipher, seqNum, lastCipher, lastSeqNum)
    }

    constructor (cipher: Cipher, bio: DatagramBio)
      requires cipher.version < 0x1_0000
      ensures Valid() && this.bio == bio && fresh(outgoing) && !shutdown
      ensures st == Sender([], 0, 0, false, WriteState(0, cipher, 0, cipher, 0), 0)
    {
      st := Sender([], 0, 0, false, WriteState(0, cipher, 0, cipher, 0), 0);
      outgoing := new Outgoing[MAX_FLIGHT](_ => Outgoing([], 0, true));
      outgoingLen, written, offset, complete := 0, 0, 0, false;
      wEpoch, seqNum, lastSeqNum, writeSeq, mtu, shutdown, noQueryMtu := 0, 0, 0, 0, 0, false, false;
      this.cipher, lastCipher, this.bio := cipher, cipher, bio;
    }

    // dtls_seal_record.
    method SealRecord(previous: bool, typ: nat, plain: seq<Byte>, maxOut: nat)
      returns (ok: bool, out: seq<Byte>, ghost sealed: Option<Sealed>)
      requires Tied() && (previous ==> wEpoch >= 1)
      modifies this`seqNum, this`lastSeqNum, this`st
      ensures Tied() && st == old(st).(ws := st.ws)
      ensures (st.ws, sealed) == DtlsSender.SealRecord(old(st.ws), previous, typ, plain, maxOut, written)
      ensures ok == sealed.Some? && (ok ==> out == RecordBytes(sealed.value.rec))
    {
      var epoch, ctx, number := wEpoch, cipher, seqNum;
      if previous {
        epoch, ctx, number := wEpoch - 1, lastCipher, lastSeqNum;
      }
      if maxOut < RT_HEADER_LENGTH {
        return false, [], None;
      }
      var version := cipher.version;
      var ciphertext := ctx.Seal(typ, version, Sequence64(epoch, number), plain);
      if ciphertext.None? || |ciphertext.value| > maxOut - RT_HEADER_LENGTH {
        return false, [], None;
      }
      // ssl_record_sequence_update reports wraparound after counting.
      var next := (number + 1) % SEQUENCE_LIMIT;
      if previous {
        lastSeqNum := next;
      } else {
        seqNum := next;
      }
      st := st.(ws := Ws());
      if next == 0 || |ciphertext.value| >= 0x1_0000 {
        return false, [], None;
      }
      var rec := Record(typ, version, epoch, number, ciphertext.value);
      return true, RecordBytes(rec), Some(Sealed(rec, plain, written));
    }

    // seal_next_message, for a ChangeCipherSpec.
    method SealCcs(previous: bool, maxOut: nat)
      returns (result: SealResult, out: seq<Byte>, ghost sealed: seq<Sealed>)
      requires Tied() && (previous ==> wEpoch >= 1)
      modifies this`seqNum, this`lastSeqNum, this`st
      ensures Tied() && out == PacketBytes(sealed)
      ensures Sealing(st, result, sealed) == DtlsSender.SealCcs(old(st), previous, maxOut)
    {
      var ctx := if previous then lastCipher else cipher;
      if maxOut < 1 + RT_HEADER_LENGTH + ctx.MaxOverhead() {
        return SealNoProgress, [], [];
      }
      var ok, bytes; ghost var made;
      ok, bytes, made := SealRecord(previous, RT_CHANGE_CIPHER_SPEC, [MT_CCS], maxOut);
      if !ok {
        return SealError, [], [];
      }
      result, out, sealed := SealSuccess, bytes, [made.value];
    }

    // seal_next_message, for a handshake message.
    method SealFragment(previous: bool, f: Fragment, maxOut: nat)
      returns (result: SealResult, out: seq<Byte>, ghost sealed: seq<Sealed>)
      requires Tied() && (previous ==> wEpoch >= 1)
      requires f.header.Fits() && |f.body| == f.header.fragLen && offset <= |f.body|
      modifies this`seqNum, this`lastSeqNum, this`offset, this`st
      ensures Tied() && out == PacketBytes(sealed)
      ensures Sealing(st, result, sealed) == DtlsSender.SealFragment(old(st), previous, f, maxOut)
    {
      var ctx := if previous then lastCipher else cipher;
      var overhead := RT_HEADER_LENGTH + ctx.MaxOverhead();
      var prefix := RT_HEADER_LENGTH + ctx.ExplicitNonceLen();
      if maxOut < HM_HEADER_LENGTH + 1 + overhead || maxOut < prefix {
        return SealNoProgress, [], [];
      }
      var left := |f.body| - offset;
      var todo := left;
      if todo > maxOut - HM_HEADER_LENGTH - overhead {
        todo := maxOut - HM_HEADER_LENGTH - overhead;
      }
      var ok, bytes; ghost var made;
      ok, bytes, made := SealRecord(previous, RT_HANDSHAKE, FragmentBytes(f, offset, todo), maxOut);
      if !ok {
        return SealError, [], [];
      }
      out, sealed := bytes, [made.value];
      if todo == left {
        offset := 0;
        result := SealSuccess;
      } else {
        offset := offset + todo;
        result := SealPartial;
      }
      st := st.(offset := offset);
    }

    // seal_next_message.
    method SealNextMessage(maxOut: nat) returns (result: SealResult, out: seq<Byte>, ghost sealed: seq<Sealed>)
      requires Tied() && written < outgoingLen
      modifies this`seqNum, this`lastSeqNum, this`offset, this`st
      ensures Tied() && out == PacketBytes(sealed)
      ensures Sealing(st, result, sealed) == DtlsSender.SealNextMessage(old(st), maxOut)
    {
      var msg := outgoing[written];
      assert msg == st.out[written];
      var previous := false;
      if wEpoch >= 1 && msg.epoch == wEpoch - 1 {
        previous := true;
      } else if msg.epoch != wEpoch {
        return SealError, [], [];
      }
      if msg.isCcs {
        result, out, sealed := SealCcs(previous, maxOut);
        return;
      }
      var f := ParseFragment(msg.data);
      if f.None? || !WholeMessage(f.value, msg.data) || offset > |f.value.body| {
        return SealError, [], [];
      }
      result, out, sealed := SealFragment(previous, f.value, maxOut);
    }

    // One record more of a packet, before the write position moves on; left is the room behind it.
    method SealOne(room: nat, ghost whole: (Sender, bool, seq<Sealed>), ghost recs: seq<Sealed>)
      returns (result: SealResult, out: seq<Byte>, left: nat, ghost recs': seq<Sealed>)
      requires Valid() && written < outgoingLen && Continues(whole, recs, st, room)
      modifies this`seqNum, this`lastSeqNum, this`offset, this`st
      ensures Tied() && PacketBytes(recs') == PacketBytes(recs) + out && |out| + left == room
      ensures st.out == old(st.out) && written == old(written)
      ensures result == SealSuccess ==> Inv(Moved(st)) && Continues(whole, recs', Moved(st), left)
      ensures result != SealSuccess ==> Inv(st) && whole == (st, result != SealError, recs')
    {
      ghost var here := st;
      ghost var sealed;
      SealNextMessageKeepsInv(st, room);
      result, out, sealed := SealNextMessage(room);
      PacketBytesLength(sealed);
      PacketBytesJoin(recs, sealed);
      recs', left := recs + sealed, room - |out|;
      RoundContinues(whole, recs, here, room, Sealing(st, result, sealed), recs', left);
    }

    // One round of the loop in seal_next_packet.
    method SealRound(room: nat, packet: seq<Byte>, ghost whole: (Sender, bool, seq<Sealed>), ghost recs: seq<Sealed>)
      returns (result: SealResult, packet': seq<Byte>, left: nat, ghost recs': seq<Sealed>)
      requires Valid() && written < outgoingLen && packet == PacketBytes(recs) && Continues(whole, recs, st, room)
      modifies this`seqNum, this`lastSeqNum, this`offset, this`written, this`st
      ensures Valid() && packet' == PacketBytes(recs') && |packet'| + left == |packet| + room
      ensures result == SealSuccess ==> written == old(written) + 1 && Continues(whole, recs', st, left)
      ensures result != SealSuccess ==> whole == (st, result != SealError, recs')
    {
      var out;
      result, out, left, recs' := SealOne(room, whole, recs);
      packet' := packet + out;
      if result == SealSuccess {
        written, st := written + 1, Moved(st);
      }
    }

    // The loop of seal_next_packet.
    method SealPacket(maxOut: nat, ghost whole: (Sender, bool, seq<Sealed>))
      returns (ok: bool, packet: seq<Byte>, ghost recs: seq<Sealed>)
      requires Valid() && Continues(whole, [], st, maxOut)
      modifies this`seqNum, this`lastSeqNum, this`offset, this`written, this`st
      ensures Valid() && whole == (st, ok, recs)
      ensures packet == PacketBytes(recs) && |packet| <= maxOut
    {
      packet, recs := [], [];
      var room := maxOut;
      while written < outgoingLen
        invariant Valid()
        invariant packet == PacketBytes(recs) && |packet| + room == maxOut
        invariant Continues(whole, recs, st, room)
        decreases outgoingLen - written
      {
        var result;
        result, packet, room, recs := SealRound(room, packet, whole, recs);
        if result != SealSuccess {
          return result != SealError, packet, recs;
        }
      }
      EndContinues(whole, recs, st, room);
      ok := true;
    }

    // seal_next_packet.
    method SealNextPacket(maxOut: nat) returns (ok: bool, packet: seq<Byte>, ghost recs: seq<Sealed>)
      requires Valid() && written < outgoingLen
      modifies this`seqNum, this`lastSeqNum, this`offset, this`written, this`st
      ensures Valid()
      ensures (st, ok, recs) == DtlsSender.SealNextPacket(old(st), maxOut)
      ensures packet == PacketBytes(recs) && |packet| <= maxOut
    {
      StartContinues(st, maxOut);
      ok, packet, recs := SealPacket(maxOut, SealMessages(st, maxOut));
      PacketBytesLength(recs);
      ok := ok && |packet| > 0;
    }

    // dtls1_update_mtu.
    method UpdateMtu() returns (ghost asked: bool, ghost answer: int)
      modifies this`mtu
      ensures asked <==> old(mtu) < MIN_MTU && !noQueryMtu
      ensures mtu == if !asked then old(mtu) else if 228 <= answer <= 0x4000_0000 then answer else 1472
      ensures !noQueryMtu ==> mtu >= MIN_MTU
    {
      asked, answer := false, 0;
      if mtu < MIN_MTU && !noQueryMtu {
        var answer' := bio.QueryMtu();
        asked, answer := true, answer';
        if 0 <= answer' <= 0x4000_0000 && answer' >= MIN_MTU {
          mtu := answer';
        } else {
          mtu := DEFAULT_MTU;
        }
      }
    }

    // Records that were sealed but not sent lead from there to the write position.
    ghost predicate Lost(from: Pos, lost: seq<Sealed>)
      reads this
    {
      && Covers(Flight(st.out), from, lost, At(st))
      && (At(st) == from <==> lost == [])
    }

    method SealForSending() returns (ok: bool, packet: seq<Byte>, ghost recs: seq<Sealed>)
      requires Valid() && written < outgoingLen
      modifies this`seqNum, this`lastSeqNum, this`offset, this`written, this`st
      ensures Valid() && st == old(st).(ws := st.ws, written := written, offset := offset)
      ensures packet == PacketBytes(recs) && |packet| <= mtu
      ensures (st, ok, recs) == DtlsSender.SealNextPacket(old(st), mtu)
      ensures (ok ==> Advances(old(st), recs, st)) && Lost(old(At(st)), recs)
    {
      PacketAdvances(st, mtu);
      ok, packet, recs := SealNextPacket(mtu);
    }

    // One round of send_flight: a packet is sealed and written; when the transport does
    // not take it the write position is put back.
    method SendPacket() returns (ret: int, ghost recs: seq<Sealed>, ghost sealFailed: bool)
      requires Valid() && written < outgoingLen
      modifies this`seqNum, this`lastSeqNum, this`offset, this`written, this`st, bio
      ensures Valid() && st == old(st).(ws := st.ws, written := written, offset := offset)
      ensures bio.sent == if ret > 0 then old(bio.sent) + [PacketBytes(recs)] else old(bio.sent)
      ensures ret > 0 ==> !sealFailed && Advances(old(st), recs, st) && |PacketBytes(recs)| <= mtu
      ensures ret <= 0 ==> Lost(old(At(st)), if sealFailed then recs else [])
      ensures Goes(old(st), mtu, 0, ret, sealFailed, if sealFailed then recs else [], st)
      ensures bio.failures == old(bio.failures) + if ret > 0 || sealFailed then 0 else 1
    {
      var oldWritten, oldOffset := written, offset;
      var ok, packet;
      ok, packet, recs := SealForSending();
      if !ok {
        return -1, recs, true;
      }
      ret := bio.Write(packet);
      sealFailed := false;
      if ret <= 0 {
        // The packet is lost; the next call seals its pieces anew.
        written, offset := oldWritten, oldOffset;
        st := st.(written := written, offset := offset);
      }
    }

    // What the transport has taken since the position was from, up to where it is now.
    ghost predicate Sent(from: Pos, packets: seq<seq<Sealed>>, here: Pos, before: seq<seq<Byte>>)
      reads this, bio
    {
      && bio.sent == before + Datagrams(packets)
      && Within(packets, mtu)
      && Covers(Flight(st.out), from, Flat(packets), here)
    }

    // One round of that loop, and what it adds.
    method SendNext(ghost start: Sender, ghost packets: seq<seq<Sealed>>, ghost before: seq<seq<Byte>>)
      returns (ret: int, ghost more: seq<seq<Sealed>>, ghost lost: seq<Sealed>, ghost sealFailed: bool)
      requires Valid() && written < outgoingLen && Sent(At(start), packets, At(st), before)
      requires st == AfterPackets(start, mtu, |packets|)
      modifies this`seqNum, this`lastSeqNum, this`offset, this`written, this`st, bio
      ensures Valid() && st == old(st).(ws := st.ws, written := written, offset := offset)
      ensures ret > 0 ==> !sealFailed && Sent(At(start), more, At(st), before)
      ensures ret > 0 ==> written > old(written) || (written == old(written) && offset > old(offset))
      ensures ret <= 0 ==> more == packets && Sent(At(start), packets, old(At(st)), before)
      ensures Lost(if ret > 0 then At(st) else old(At(st)), lost) && (!sealFailed ==> lost == [])
      ensures ret > 0 ==> |more| == |packets| + 1
      ensures Goes(start, mtu, |packets|, ret, sealFailed, lost, st)
      ensures bio.failures == old(bio.failures) + if ret > 0 || sealFailed then 0 else 1
    {
      ghost var here := st;
      ghost var recs;
      more := packets;
      ret, recs, sealFailed := SendPacket();
      lost := if sealFailed then recs else [];
      if ret > 0 {
        PacketSent(Flight(st.out), At(start), packets, At(here), recs, At(st), mtu);
        more := packets + [recs];
      }
      RoundEnds(start, mtu, |packets|, here, ret, sealFailed, lost, st);
    }

    // The loop of send_flight.
    method SendPackets()
      returns (ret: int, ghost packets: seq<seq<Sealed>>, ghost last: Pos, ghost lost: seq<Sealed>,
               ghost sealFailed: bool)
      requires Valid()
      modifies this`seqNum, this`lastSeqNum, this`offset, this`written, this`st, bio
      ensures Valid() && st == old(st).(ws := st.ws, written := written, offset := offset)
      ensures Sent(old(At(st)), packets, last, old(bio.sent))
      ensures Lost(last, lost) && (!sealFailed ==> lost == [])
      ensures ret > 0 ==> !sealFailed && last == Pos(outgoingLen, 0)
      ensures Ends(old(st), mtu, |packets|, sealFailed, ret <= 0, lost, st)
      ensures bio.failures == old(bio.failures) + if ret > 0 || sealFailed then 0 else 1
    {
      ghost var start, before := st, bio.sent;
      packets, last, lost, sealFailed, ret := [], At(st), [], false, 1;
      while written < outgoingLen
        invariant Valid() && st == old(st).(ws := st.ws, written := written, offset := offset)
        invariant Sent(At(start), packets, last, before) && last == At(st)
        invariant ret > 0 && !sealFailed && lost == []
        invariant st == AfterPackets(start, mtu, |packets|) && bio.failures == old(bio.failures)
        decreases outgoingLen - written, LeftInEntry(Flight(st.out), At(st))
      {
        ret, packets, lost, sealFailed := SendNext(start, packets, before);
        if ret <= 0 {
          return;
        }
        last := At(st);
      }
    }

    // send_flight. The packets the transport took cover the flight from the old write
    // position to last. When sealing fails the write position is past that by the records of the
    // packet that was not sent, and where it was exactly when there are none. Nothing is refused
    // without a cause: a shutdown, a packet that cannot be sealed, or the transport.
    method SendFlight()
      returns (ret: int, ghost packets: seq<seq<Sealed>>, ghost last: Pos, ghost lost: seq<Sealed>,
               ghost sealFailed: bool)
      requires Valid()
      modifies this`seqNum, this`lastSeqNum, this`offset, this`written, this`mtu, this`st, bio
      ensures Valid() && st == old(st).(ws := st.ws, written := written, offset := offset)
      ensures bio.sent == old(bio.sent) + Datagrams(packets)
      ensures Within(packets, mtu)
      ensures Covers(Flight(st.out), old(At(st)), Flat(packets), last)
      ensures Lost(last, lost) && (!sealFailed ==> lost == [])
      ensures ret == 1 ==> !sealFailed && last == Pos(outgoingLen, 0) && bio.flushed == |bio.sent|
      ensures ret == 1 || ret <= 0
      ensures old(shutdown) ==> ret == -1 && packets == [] && bio.failures == old(bio.failures) && st == old(st)
      ensures ret <= 0 <==> old(shutdown) || sealFailed || bio.failures > old(bio.failures)
      ensures Stops(old(st), mtu, |packets|, ret, sealFailed, lost, st)
    {
      packets, last, lost, sealFailed := [], At(st), [], false;
      if shutdown {
        return -1, packets, last, lost, false;
      }
      ghost var asked, answer := UpdateMtu();
      ret, packets, last, lost, sealFailed := SendPackets();
      if ret <= 0 {
        return;
      }
      var flushed := bio.Flush();
      ret := if flushed <= 0 then -1 else 1;
    }

    // dtls1_flush_flight.
    method FlushFlight()
      returns (ret: int, ghost packets: seq<seq<Sealed>>, ghost last: Pos, ghost lost: seq<Sealed>,
               ghost sealFailed: bool)
      requires Valid()
      modifies this, bio
      ensures Valid() && complete && st == old(st).(ws := st.ws, written := written, offset := offset, complete := true)
      ensures bio.sent == old(bio.sent) + Datagrams(packets)
      ensures Within(packets, mtu)
      ensures Covers(Flight(st.out), old(At(st)), Flat(packets), last)
      ensures Lost(last, lost) && (!sealFailed ==> lost == [])
      ensures ret == 1 ==> last == Pos(outgoingLen, 0) == At(st) && bio.flushed == |bio.sent|
      ensures ret == 1 || ret <= 0
      ensures old(shutdown) ==> ret == -1 && packets == [] && bio.failures == old(bio.failures)
      ensures old(shutdown) ==> st == old(st).(complete := true)
      ensures ret <= 0 <==> old(shutdown) || sealFailed || bio.failures > old(bio.failures)
      ensures Stops(old(st).(complete := true), mtu, |packets|, ret, sealFailed, lost, st)
    {
      complete := true;
      st := st.(complete := true);
      ret, packets, last, lost, sealFailed := SendFlight();
    }

    // dtls1_retransmit_outgoing_messages: when it succeeds the whole flight is on the
    // transport once more.
    method Retransmit()
      returns (ret: int, ghost packets: seq<seq<Sealed>>, ghost last: Pos, ghost lost: seq<Sealed>,
               ghost sealFailed: bool)
      requires Valid()
      modifies this, bio
      ensures Valid() && bio.sent == old(bio.sent) + Datagrams(packets)
      ensures Within(packets, mtu)
      ensures st == old(st).(ws := st.ws, written := written, offset := offset)
      ensures Covers(Flight(st.out), Pos(0, 0), Flat(packets), last) && Lost(last, lost)
      ensures ret == 1 ==> last == Pos(outgoingLen, 0) == At(st) && bio.flushed == |bio.sent|
      ensures ret == 1 ==> forall i :: 0 <= i < outgoingLen && !outgoing[i].isCcs ==>
                Carried(Flat(packets), i) == Flight(st.out)[i].body
      ensures ret == 1 || ret <= 0
      ensures old(shutdown) ==> ret == -1 && packets == [] && bio.failures == old(bio.failures) && st == Rewind(old(st))
      ensures ret <= 0 <==> old(shutdown) || sealFailed || bio.failures > old(bio.failures)
      ensures Stops(Rewind(old(st)), mtu, |packets|, ret, sealFailed, lost, st)
    {
      written, offset := 0, 0;
      st := st.(written := 0, offset := 0);
      ret, packets, last, lost, sealFailed := SendFlight();
      if ret == 1 {
        forall i | 0 <= i < outgoingLen && !outgoing[i].isCcs
          ensures Carried(Flat(packets), i) == Flight(st.out)[i].body
        {
          FlightAt(st.out, i);
          WholeFlight(Flight(st.out), Flat(packets), i);
        }
      }
    }

    // dtls_clear_outgoing_messages.
    method ClearOutgoing()
      requires Tied()
      modifies this`outgoingLen, this`written, this`offset, this`complete, this`st
      ensures Tied() && st == old(st).(out := [], written := 0, offset := 0, complete := false)
    {
      outgoingLen, written, offset, complete := 0, 0, 0, false;
      st := st.(out := [], written := 0, offset := 0, complete := false);
    }

    // add_outgoing.
    method AddOutgoing(isCcs: bool, data: seq<Byte>) returns (ok: bool)
      requires Valid() && EntryOk(Outgoing(data, wEpoch, isCcs))
      modifies this, outgoing
      ensures Valid() && (st, ok) == DtlsSender.AddOutgoing(old(st), isCcs, data)
    {
      AddOutgoingKeepsInv(st, isCcs, data);
      ghost var next := DtlsSender.AddOutgoing(st, isCcs, data);
      if complete {
        ClearOutgoing();
      }
      if outgoingLen >= MAX_FLIGHT || |data| > 0xffff_ffff {
        assert st == next.0;
        return false;
      }
      Append(Outgoing(data, wEpoch, isCcs));
      assert st == next.0;
      ok := true;
    }

    method Append(msg: Outgoing)
      requires Tied() && outgoingLen < MAX_FLIGHT && writeSeq < 0x1_0000
      modifies this`outgoingLen, this`writeSeq, this`st, outgoing
      ensures Tied()
      ensures st == old(st).(out := old(st.out) + [msg],
                             writeSeq := if msg.isCcs then old(writeSeq) else (old(writeSeq) + 1) % 0x1_0000)
    {
      if !msg.isCcs {
        writeSeq := (writeSeq + 1) % 0x1_0000;
      }
      outgoing[outgoingLen] := msg;
      outgoingLen := outgoingLen + 1;
      assert outgoing[..outgoingLen] == st.out + [msg];
      st := st.(out := st.out + [msg], writeSeq := writeSeq);
    }

    // dtls1_init_message to dtls1_add_message.
    method AddMessage(typ: nat, body: seq<Byte>) returns (ok: bool)
      requires Valid() && typ < 0x100
      modifies this, outgoing
      ensures Valid() && (st, ok) == DtlsSender.AddMessage(old(st), typ, body)
    {
      if |body| >= 0x100_0000 {
        return false;
      }
      MessageParses(typ, writeSeq, body);
      ok := AddOutgoing(false, MessageBytes(typ, writeSeq, body));
    }

    // dtls1_add_change_cipher_spec.
    method AddChangeCipherSpec() returns (ok: bool)
      requires Valid()
      modifies this, outgoing
      ensures Valid() && (st, ok) == DtlsSender.AddChangeCipherSpec(old(st))
    {
      ok := AddOutgoing(true, []);
    }

    // dtls1_set_write_state.
    method SetWriteState(newCipher: Cipher)
      requires Valid() && newCipher.version < 0x1_0000
      modifies this
      ensures Valid() && st == DtlsSender.SetWriteState(old(st), newCipher)
    {
      wEpoch := (wEpoch + 1) % 0x1_0000;
      lastSeqNum, seqNum := seqNum, 0;
      lastCipher, cipher := cipher, newCipher;
      st := st.(ws := Ws());
    }
  }

  function Moved(s: Sender): Sender {
    s.(written := s.written + 1)
  }

  // The whole packet is what has been sealed and what sealing from here on adds.
  ghost predicate Continues(whole: (Sender, bool, seq<Sealed>), recs: seq<Sealed>, s: Sender, room: nat) {
    && s.written <= |s.out|
    && var rest := SealMessages(s, room);
       whole == (rest.0, rest.1, recs + rest.2)
  }

  // What one round of the loop makes of that, with recs so far and left behind them.
  ghost predicate Round(whole: (Sender, bool, seq<Sealed>), recs: seq<Sealed>, left: nat, r: Sealing) {
    && r.sender.written < |r.sender.out|
    && if r.result == SealSuccess then Inv(Moved(r.sender)) && Continues(whole, recs, Moved(r.sender), left)
       else Inv(r.sender) && whole == (r.sender, r.result != SealError, recs)
  }

  lemma {:induction false} RoundContinues(whole: (Sender, bool, seq<Sealed>), recs: seq<Sealed>, s: Sender,
                                          room: nat, r: Sealing, recs': seq<Sealed>, left: nat)
    requires Inv(s) && s.written < |s.out| && r == DtlsSender.SealNextMessage(s, room)
    requires Continues(whole, recs, s, room)
    requires recs' == recs + r.sealed && PacketLen(r.sealed) + left == room
    ensures Round(whole, recs', left, r)
  {
    SealNextMessageKeepsInv(s, room);
    RestContinues(whole, recs, s, room, r, SealRest(r, room), recs', left);
  }

  lemma {:induction false} RestContinues(whole: (Sender, bool, seq<Sealed>), recs: seq<Sealed>, s: Sender, room: nat,
                                         r: Sealing, rest: (Sender, bool, seq<Sealed>), recs': seq<Sealed>, left: nat)
    requires SealingOk(s, room, r) && rest == SealRest(r, room)
    requires whole == (rest.0, rest.1, recs + rest.2)
    requires recs' == recs + r.sealed && PacketLen(r.sealed) + left == room
    ensures Round(whole, recs', left, r)
  {
    if r.result == SealSuccess {
      RestAfterOne(r, room, left);
      var t := SealMessages(Moved(r.sender), left);
      assert recs + (r.sealed + t.2) == recs' + t.2;
    } else {
      assert r.result != SealPartial ==> r.sealed == [];
    }
  }

  lemma {:induction false} RestAfterOne(r: Sealing, room: nat, left: nat)
    requires r.sender.written < |r.sender.out| && r.result == SealSuccess && |r.sealed| == 1
    requires PacketLen(r.sealed) + left == room
    ensures var t := SealMessages(Moved(r.sender), left);
            SealRest(r, room) == (t.0, t.1, r.sealed + t.2)
  {
    assert r.sealed[1..] == [];
  }

  lemma {:induction false} StartContinues(s: Sender, maxOut: nat)
    requires s.written <= |s.out|
    ensures Continues(SealMessages(s, maxOut), [], s, maxOut)
  {
    assert [] + SealMessages(s, maxOut).2 == SealMessages(s, maxOut).2;
  }

  lemma {:induction false} EndContinues(whole: (Sender, bool, seq<Sealed>), recs: seq<Sealed>, s: Sender, room: nat)
    requires Continues(whole, recs, s, room) && s.written == |s.out|
    ensures whole == (s, true, recs)
  {
    assert recs + [] == recs;
  }

  // A packet's records take the position strictly forward.
  ghost predicate Advances(s: Sender, recs: seq<Sealed>, s': Sender) {
    && Covers(Flight(s.out), At(s), recs, At(s'))
    && (s'.written > s.written || (s'.written == s.written && s'.offset > s.offset))
  }

  lemma {:induction false} PacketAdvances(s: Sender, mtu: nat)
    requires Inv(s) && s.written < |s.out|
    ensures var (s', ok, recs) := DtlsSender.SealNextPacket(s, mtu);
            && s' == s.(ws := s'.ws, written := s'.written, offset := s'.offset)
            && (ok ==> Advances(s, recs, s'))
            && Covers(Flight(s.out), At(s), recs, At(s')) && (At(s') == At(s) <==> recs == [])
  {
    SealMessagesKeepsInv(s, mtu);
    PacketLeaves(s, mtu);
    var (s', ok, recs) := DtlsSender.SealNextPacket(s, mtu);
    if ok {
      CoversProgress(Flight(s.out), At(s), recs, At(s'));
    }
  }

  lemma {:induction false} DatagramsGrow(packets: seq<seq<Sealed>>, recs: seq<Sealed>)
    ensures Datagrams(packets + [recs]) == Datagrams(packets) + [PacketBytes(recs)]
    ensures Flat(packets + [recs]) == Flat(packets) + recs
  {
    assert (packets + [recs])[..|packets|] == packets;
  }
}
