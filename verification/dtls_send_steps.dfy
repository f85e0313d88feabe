// The steps of the sending side keep what the transport promises.

module DtlsSendSteps {
  import opened Wire
  import opened Ciphers
  import opened DtlsTransport
  import R = DtlsReceiver
  import S = DtlsSender
  import F = Fragmentation

  // Queueing.

  lemma {:induction false} AppendKeepsIndex(queued: seq<R.Message>, m: R.Message, out: seq<S.Outgoing>,
                                            o: S.Outgoing, p: nat)
    requires p <= |out|
    ensures Messages(out + [o]) == Messages(out) + (if o.isCcs then 0 else 1)
    ensures IndexOf(if o.isCcs then queued else queued + [m], out + [o], p) == IndexOf(queued, out, p)
  {
    assert (out + [o])[..|out|] == out;
    assert (out + [o])[..p] == out[..p];
  }

  lemma {:induction false} MessagesMonotone(out: seq<S.Outgoing>, p: nat)
    requires p <= |out|
    ensures Messages(out[..p]) <= Messages(out) <= |out|
    ensures p < |out| && !out[p].isCcs ==> Messages(out[..p]) < Messages(out)
    decreases |out|
  {
    if p < |out| {
      var n := |out| - 1;
      MessagesMonotone(out[..n], p);
      assert out[..n][..p] == out[..p];
    } else {
      assert out[..p] == out;
      if |out| > 0 {
        MessagesMonotone(out[..|out| - 1], |out| - 1);
      }
    }
  }

  lemma {:induction false} QueueKeepsFlight(queued: seq<R.Message>, msgEpoch: seq<nat>, out: seq<S.Outgoing>,
                                            m: R.Message, epoch: nat)
    requires FlightOk(queued, msgEpoch, out) && m.typ < 0x100 && |m.body| < 0x100_0000
    ensures FlightOk(queued + [m], msgEpoch + [epoch],
                     out + [S.Outgoing(S.MessageBytes(m.typ, |queued| % SEQ_LIMIT, m.body), epoch, false)])
  {
    var o := S.Outgoing(S.MessageBytes(m.typ, |queued| % SEQ_LIMIT, m.body), epoch, false);
    var out', queued', msgEpoch' := out + [o], queued + [m], msgEpoch + [epoch];
    AppendKeepsIndex(queued, m, out, o, |out|);
    forall p | 0 <= p < |out'| && !out'[p].isCcs
      ensures EntryOk(queued', msgEpoch', out', p)
    {
      AppendKeepsIndex(queued, m, out, o, if p < |out| then p else |out|);
      if p < |out| {
        assert EntryOk(queued, msgEpoch, out, p);
      } else {
        assert out[..|out|] == out;
      }
    }
  }

  lemma {:induction false} CcsKeepsFlight(queued: seq<R.Message>, msgEpoch: seq<nat>, out: seq<S.Outgoing>,
                                          epoch: nat)
    requires FlightOk(queued, msgEpoch, out)
    ensures FlightOk(queued, msgEpoch, out + [S.Outgoing([], epoch, true)])
  {
    var o := S.Outgoing([], epoch, true);
    var m := R.Message(0, []);
    AppendKeepsIndex(queued, m, out, o, |out|);
    forall p | 0 <= p < |out| && !out[p].isCcs
      ensures EntryOk(queued, msgEpoch, out + [o], p)
    {
      AppendKeepsIndex(queued, m, out, o, p);
      assert EntryOk(queued, msgEpoch, out, p);
    }
  }

  lemma RecordOkGrows(keys: Keys, queued: seq<R.Message>, msgEpoch: seq<nat>, m: R.Message, epoch: nat, e: Sent)
    requires RecordOk(keys, queued, msgEpoch, e) && |queued| == |msgEpoch|
    ensures RecordOk(keys, queued + [m], msgEpoch + [epoch], e)
  {
  }

  // What adding a message does, field by field.
  lemma {:induction false} AddMessageFields(s: S.Sender, typ: nat, body: seq<Byte>)
    requires S.Inv(s) && typ < 0x100
    ensures var (s', ok) := S.AddMessage(s, typ, body);
            var kept := if s.complete && |body| < 0x100_0000 then [] else s.out;
            && S.Inv(s') && s'.ws == s.ws
            && (ok ==> |body| < 0x100_0000 && s'.writeSeq == (s.writeSeq + 1) % SEQ_LIMIT
                       && s'.out == kept + [S.Outgoing(S.MessageBytes(typ, s.writeSeq, body), s.ws.epoch, false)])
            && (!ok ==> s'.writeSeq == s.writeSeq && s'.out == kept)
  {
    if |body| < 0x100_0000 {
      S.MessageParses(typ, s.writeSeq, body);
      S.AddOutgoingKeepsInv(s, false, S.MessageBytes(typ, s.writeSeq, body));
    }
  }

  lemma {:induction false} AddMessageSeq(s: S.Sender, queued: seq<R.Message>, typ: nat, body: seq<Byte>)
    requires S.Inv(s) && typ < 0x100 && s.writeSeq == |queued| % SEQ_LIMIT
    ensures var (s', ok) := S.AddMessage(s, typ, body);
            S.Inv(s') && s'.ws == s.ws && s'.writeSeq == (if ok then |queued| + 1 else |queued|) % SEQ_LIMIT
  {
    AddMessageFields(s, typ, body);
  }

  lemma FlightOkCleared(queued: seq<R.Message>, msgEpoch: seq<nat>, out: seq<S.Outgoing>, kept: seq<S.Outgoing>)
    requires FlightOk(queued, msgEpoch, out) && (kept == [] || kept == out)
    ensures FlightOk(queued, msgEpoch, kept)
  {
  }

  lemma {:induction false} AddMessageKeepsFlight(s: S.Sender, queued: seq<R.Message>, msgEpoch: seq<nat>, typ: nat,
                                                 body: seq<Byte>)
    requires S.Inv(s) && typ < 0x100
    requires FlightOk(queued, msgEpoch, s.out) && s.writeSeq == |queued| % SEQ_LIMIT
    ensures var (s', ok) := S.AddMessage(s, typ, body);
            if ok then FlightOk(queued + [R.Message(typ, body)], msgEpoch + [s.ws.epoch], s'.out)
            else FlightOk(queued, msgEpoch, s'.out)
  {
    AddMessageFields(s, typ, body);
    var kept := if s.complete && |body| < 0x100_0000 then [] else s.out;
    FlightOkCleared(queued, msgEpoch, s.out, kept);
    if S.AddMessage(s, typ, body).1 {
      QueueKeepsFlight(queued, msgEpoch, kept, R.Message(typ, body), s.ws.epoch);
    }
  }

  lemma {:induction false} QueueKeepsSender(keys: Keys, s: S.Sender, queued: seq<R.Message>, msgEpoch: seq<nat>,
                                            typ: nat, body: seq<Byte>, s': S.Sender, ok: bool)
    requires SenderOk(keys, s, queued, msgEpoch) && typ < 0x100 && (s', ok) == S.AddMessage(s, typ, body)
    ensures s'.ws == s.ws
    ensures ok ==> SenderOk(keys, s', queued + [R.Message(typ, body)], msgEpoch + [s.ws.epoch])
    ensures !ok ==> SenderOk(keys, s', queued, msgEpoch)
  {
    AddMessageSeq(s, queued, typ, body);
    AddMessageKeepsFlight(s, queued, msgEpoch, typ, body);
    var queued' := if ok then queued + [R.Message(typ, body)] else queued;
    NewSenderOk(keys, s, queued, msgEpoch, s', queued', if ok then msgEpoch + [s.ws.epoch] else msgEpoch);
  }

  lemma NewSenderOk(keys: Keys, s: S.Sender, queued: seq<R.Message>, msgEpoch: seq<nat>, s': S.Sender,
                    queued': seq<R.Message>, msgEpoch': seq<nat>)
    requires SenderOk(keys, s, queued, msgEpoch)
    requires S.Inv(s') && s'.ws == s.ws && FlightOk(queued', msgEpoch', s'.out) && s'.writeSeq == |queued'| % SEQ_LIMIT
    requires msgEpoch' == msgEpoch || msgEpoch' == msgEpoch + [s.ws.epoch]
    ensures SenderOk(keys, s', queued', msgEpoch')
  {
  }

  lemma {:induction false} QueueCcsKeepsSender(keys: Keys, s: S.Sender, queued: seq<R.Message>, msgEpoch: seq<nat>)
    requires SenderOk(keys, s, queued, msgEpoch)
    ensures SenderOk(keys, S.AddChangeCipherSpec(s).0, queued, msgEpoch)
  {
    S.AddOutgoingKeepsInv(s, true, []);
    var (s', ok) := S.AddChangeCipherSpec(s);
    var kept := if s.complete then [] else s.out;
    FlightOkCleared(queued, msgEpoch, s.out, kept);
    if ok {
      CcsKeepsFlight(queued, msgEpoch, kept, s.ws.epoch);
    }
    NewSenderOk(keys, s, queued, msgEpoch, s', queued, msgEpoch);
  }

  lemma {:induction false} ReceiverIgnoresQueue(keys: Keys, r: R.Receiver, queued: seq<R.Message>, m: R.Message,
                                                delivered: seq<R.Message>, log: seq<Sent>, via: map<nat, Sent>)
    requires ReceiverOk(keys, r, queued, delivered, log, via) && |queued| < |delivered| + SEQ_LIMIT
    ensures ReceiverOk(keys, r, queued + [m], delivered, log, via)
  {
  }

  lemma {:induction false} ReceiverIgnoresLog(keys: Keys, r: R.Receiver, queued: seq<R.Message>,
                                              delivered: seq<R.Message>, log: seq<Sent>, more: seq<Sent>,
                                              via: map<nat, Sent>)
    requires ReceiverOk(keys, r, queued, delivered, log, via)
    ensures ReceiverOk(keys, r, queued, delivered, log + more, via)
  {
    forall k | 0 <= k < |delivered|
      ensures ViaOk(r, log + more, via, k)
    {
      assert ViaOk(r, log, via, k);
    }
    forall i | 0 <= i < MAX_FLIGHT && r.slots[i].Some?
      ensures SlotMatches(r, queued, |delivered|, log + more, via, r.slots[i].value)
    {
      assert SlotMatches(r, queued, |delivered|, log, via, r.slots[i].value);
    }
  }

  lemma {:induction false} QueueKeepsGood(keys: Keys, maxLen: nat, c: Sys, typ: nat, body: seq<Byte>)
    requires Good(keys, c) && Enabled(keys, c, Queue(typ, body))
    ensures Good(keys, Apply(keys, maxLen, c, Queue(typ, body)))
  {
    var (s', ok) := S.AddMessage(c.s, typ, body);
    QueueKeepsSender(keys, c.s, c.queued, c.msgEpoch, typ, body, s', ok);
    var m := R.Message(typ, body);
    ReceiverIgnoresQueue(keys, c.r, c.queued, m, c.delivered, c.log, c.via);
    forall i | 0 <= i < |c.log|
      ensures RecordOk(keys, c.queued + [m], c.msgEpoch + [c.s.ws.epoch], c.log[i])
    {
      RecordOkGrows(keys, c.queued, c.msgEpoch, m, c.s.ws.epoch, c.log[i]);
    }
  }

  lemma {:induction false} ChangeWriteKeepsSender(keys: Keys, s: S.Sender, queued: seq<R.Message>, msgEpoch: seq<nat>)
    requires SenderOk(keys, s, queued, msgEpoch) && KeysOk(keys) && s.ws.epoch + 1 < SEQ_LIMIT
    ensures SenderOk(keys, S.SetWriteState(s, keys(s.ws.epoch + 1)), queued, msgEpoch)
  {
    assert keys(s.ws.epoch + 1).Sound();
  }

  lemma {:induction false} ChangeWriteKeepsGood(keys: Keys, maxLen: nat, c: Sys)
    requires Good(keys, c) && Enabled(keys, c, ChangeWrite) && KeysOk(keys)
    ensures Good(keys, Apply(keys, maxLen, c, ChangeWrite))
  {
    ChangeWriteKeepsSender(keys, c.s, c.queued, c.msgEpoch);
    ChangeWriteKeepsLog(keys, c.s, c.queued, c.msgEpoch, c.log);
    var c' := Apply(keys, maxLen, c, ChangeWrite);
    assert c'.s == S.SetWriteState(c.s, keys(c.s.ws.epoch + 1));
    SenderReplaced(keys, c, c');
  }

  lemma {:induction false} ChangeWriteKeepsLog(keys: Keys, s: S.Sender, queued: seq<R.Message>, msgEpoch: seq<nat>,
                                               log: seq<Sent>)
    requires LogOk(keys, s.ws, queued, msgEpoch, log) && s.ws.epoch + 1 < SEQ_LIMIT
    ensures LogOk(keys, S.SetWriteState(s, keys(s.ws.epoch + 1)).ws, queued, msgEpoch, log)
  {
    forall i | 0 <= i < |log|
      ensures NumberOk(S.SetWriteState(s, keys(s.ws.epoch + 1)).ws, log[i])
    {
      assert NumberOk(s.ws, log[i]);
    }
  }

  lemma SenderReplaced(keys: Keys, c: Sys, c': Sys)
    requires Good(keys, c) && c' == c.(s := c'.s) && SenderOk(keys, c'.s, c.queued, c.msgEpoch)
    requires LogOk(keys, c'.s.ws, c.queued, c.msgEpoch, c.log)
    ensures Good(keys, c')
  {
  }

  // Sealing.

  // The records use up consecutive sequence numbers of the two live epochs, each sealed
  // under its epoch's cipher.
  ghost predicate Counted(w: S.WriteState, recs: seq<S.Sealed>, w': S.WriteState)
    decreases |recs|
  {
    if recs == [] then w == w'
    else
      var rec := recs[0].rec;
      && Live(w, rec.epoch)
      && S.Context(w, rec.epoch != w.epoch)
              .Seal(rec.typ, rec.version, Sequence64(rec.epoch, rec.seqNum), recs[0].plain) == Some(rec.body)
      && rec.seqNum == NextNumber(w, rec.epoch)
      && Counted(Used(w, rec.epoch), recs[1..], w')
  }

  predicate Live(w: S.WriteState, epoch: nat) {
    epoch == w.epoch || epoch + 1 == w.epoch
  }

  function NextNumber(w: S.WriteState, epoch: nat): nat {
    if epoch == w.epoch then w.seqNum else w.lastSeqNum
  }

  function Used(w: S.WriteState, epoch: nat): S.WriteState {
    if epoch == w.epoch then w.(seqNum := w.seqNum + 1) else w.(lastSeqNum := w.lastSeqNum + 1)
  }

  // Past the last record a counter may have moved once more without one: by wrapping
  // around, or for a ciphertext that does not fit a record.
  ghost predicate Spent(w: S.WriteState, w': S.WriteState) {
    && w' == w.(seqNum := w'.seqNum, lastSeqNum := w'.lastSeqNum)
    && (w'.seqNum == w.seqNum || w'.seqNum == (w.seqNum + 1) % SEQUENCE_LIMIT)
    && (w'.lastSeqNum == w.lastSeqNum || w'.lastSeqNum == (w.lastSeqNum + 1) % SEQUENCE_LIMIT)
  }

  ghost predicate Sealing1(w: S.WriteState, sealed: seq<S.Sealed>, w': S.WriteState) {
    if sealed == [] then Spent(w, w') else |sealed| == 1 && Counted(w, sealed, w')
  }

  lemma SealRecordCounts(w: S.WriteState, previous: bool, typ: nat, plain: seq<Byte>, maxOut: nat, entry: nat)
    requires S.WriteOk(w) && (previous ==> w.epoch >= 1)
    ensures var (w', sealed) := S.SealRecord(w, previous, typ, plain, maxOut, entry);
            Sealing1(w, if sealed.Some? then [sealed.value] else [], w')
  {
  }

  lemma {:induction false} SealNextMessageCounts(s: S.Sender, maxOut: nat)
    requires S.Inv(s) && s.written < |s.out|
    ensures var r := S.SealNextMessage(s, maxOut); Sealing1(s.ws, r.sealed, r.sender.ws)
  {
    var msg := s.out[s.written];
    S.EntryIsOk(s.out, s.written);
    S.FlightAt(s.out, s.written);
    var previous := s.ws.epoch >= 1 && msg.epoch == s.ws.epoch - 1;
    if previous || msg.epoch == s.ws.epoch {
      if msg.isCcs {
        SealRecordCounts(s.ws, previous, RT_CHANGE_CIPHER_SPEC, [MT_CCS], maxOut, s.written);
      } else {
        SealFragmentCounts(s, previous, ParseFragment(msg.data).value, maxOut);
      }
    }
  }

  lemma {:induction false} SealFragmentCounts(s: S.Sender, previous: bool, f: Fragment, maxOut: nat)
    requires S.Inv(s) && (previous ==> s.ws.epoch >= 1)
    requires f.header.Fits() && |f.body| == f.header.fragLen && s.offset <= |f.body|
    ensures var r := S.SealFragment(s, previous, f, maxOut); Sealing1(s.ws, r.sealed, r.sender.ws)
  {
    var room := maxOut - HM_HEADER_LENGTH - RT_HEADER_LENGTH - S.Context(s.ws, previous).MaxOverhead();
    if room > 0 {
      var left := |f.body| - s.offset;
      var todo := if left > room then room else left;
      SealRecordCounts(s.ws, previous, RT_HANDSHAKE, S.FragmentBytes(f, s.offset, todo), maxOut, s.written);
    }
  }

  lemma {:induction false} SealMessagesCounts(s: S.Sender, maxOut: nat) returns (w: S.WriteState)
    requires S.Inv(s)
    ensures var (s', ok, recs) := S.SealMessages(s, maxOut); Counted(s.ws, recs, w) && Spent(w, s'.ws)
    ensures |S.SealMessages(s, maxOut).2| <= |s.out| - s.written
    decreases |s.out| - s.written, 1
  {
    if s.written == |s.out| {
      w := s.ws;
    } else {
      S.SealNextMessageKeepsInv(s, maxOut);
      SealNextMessageCounts(s, maxOut);
      w := SealRestCounts(s, S.SealNextMessage(s, maxOut), maxOut);
    }
  }

  lemma {:induction false} SealRestCounts(s: S.Sender, r: S.Sealing, maxOut: nat) returns (w: S.WriteState)
    requires S.SealingOk(s, maxOut, r) && Sealing1(s.ws, r.sealed, r.sender.ws)
    ensures var (s', ok, recs) := S.SealRest(r, maxOut); Counted(s.ws, recs, w) && Spent(w, s'.ws)
    ensures |S.SealRest(r, maxOut).2| <= |s.out| - s.written
    decreases |s.out| - s.written, 0
  {
    var all := S.SealRest(r, maxOut);
    if r.result == S.SealSuccess {
      var next := r.sender.(written := s.written + 1);
      var rest := maxOut - (RT_HEADER_LENGTH + |r.sealed[0].rec.body|);
      var tail := S.SealMessages(next, rest);
      assert all == (tail.0, tail.1, r.sealed + tail.2);
      w := SealMessagesCounts(next, rest);
      CountedJoin(s.ws, r.sealed, next.ws, tail.2, w);
    } else if r.result == S.SealPartial {
      w := r.sender.ws;
    } else {
      w := s.ws;
    }
  }

  lemma {:induction false} CountedJoin(w: S.WriteState, a: seq<S.Sealed>, mid: S.WriteState, b: seq<S.Sealed>,
                                       w': S.WriteState)
    requires Counted(w, a, mid) && Counted(mid, b, w')
    ensures Counted(w, a + b, w')
    decreases |a|
  {
    if a == [] {
      assert a + b == b;
    } else {
      assert (a + b)[1..] == a[1..] + b;
      CountedJoin(Used(w, a[0].rec.epoch), a[1..], mid, b, w');
    }
  }

  // Where record i of a counted run stands.
  ghost predicate CountedRecord(w: S.WriteState, x: S.Sealed, w': S.WriteState) {
    var rec := x.rec;
    && Live(w, rec.epoch)
    && S.Context(w, rec.epoch != w.epoch)
              .Seal(rec.typ, rec.version, Sequence64(rec.epoch, rec.seqNum), x.plain) == Some(rec.body)
    && NextNumber(w, rec.epoch) <= rec.seqNum < NextNumber(w', rec.epoch)
  }

  lemma {:induction false} CountedFields(w: S.WriteState, recs: seq<S.Sealed>, w': S.WriteState)
    requires Counted(w, recs, w')
    ensures w' == w.(seqNum := w'.seqNum, lastSeqNum := w'.lastSeqNum)
    ensures w.seqNum <= w'.seqNum <= w.seqNum + |recs|
    ensures w.lastSeqNum <= w'.lastSeqNum <= w.lastSeqNum + |recs|
    decreases |recs|
  {
    if recs != [] {
      CountedFields(Used(w, recs[0].rec.epoch), recs[1..], w');
    }
  }

  lemma {:induction false} CountedAt(w: S.WriteState, recs: seq<S.Sealed>, w': S.WriteState, i: nat)
    requires Counted(w, recs, w') && i < |recs|
    ensures CountedRecord(w, recs[i], w')
    decreases |recs|
  {
    var u := Used(w, recs[0].rec.epoch);
    CountedFields(u, recs[1..], w');
    if i > 0 {
      CountedAt(u, recs[1..], w', i - 1);
    }
  }

  lemma {:induction false} CountedOrder(w: S.WriteState, recs: seq<S.Sealed>, w': S.WriteState, i: nat, j: nat)
    requires Counted(w, recs, w') && i < j < |recs| && recs[i].rec.epoch == recs[j].rec.epoch
    ensures recs[i].rec.seqNum < recs[j].rec.seqNum
    decreases |recs|
  {
    var u := Used(w, recs[0].rec.epoch);
    if i == 0 {
      CountedAt(u, recs[1..], w', j - 1);
    } else {
      CountedOrder(u, recs[1..], w', i - 1, j - 1);
    }
  }

  // If neither counter came out lower, none wrapped around: a packet holds too few
  // records to come back round to where it started.
  lemma {:induction false} NoWrap(w: S.WriteState, recs: seq<S.Sealed>, mid: S.WriteState, w': S.WriteState)
    requires Counted(w, recs, mid) && Spent(mid, w') && |recs| <= MAX_FLIGHT
    requires w'.seqNum >= w.seqNum && w'.lastSeqNum >= w.lastSeqNum
    requires w'.seqNum < SEQUENCE_LIMIT && w'.lastSeqNum < SEQUENCE_LIMIT
    ensures w'.seqNum >= mid.seqNum && w'.lastSeqNum >= mid.lastSeqNum
  {
    CountedFields(w, recs, mid);
  }

  lemma {:induction false} TagAt(queued: seq<R.Message>, out: seq<S.Outgoing>, recs: seq<S.Sealed>, i: nat)
    requires i < |recs|
    ensures |Tag(queued, out, recs)| == |recs|
    ensures Tag(queued, out, recs)[i].x == recs[i]
    ensures var p := recs[i].entry;
            p <= |out| && IndexOf(queued, out, p) >= 0 ==> Tag(queued, out, recs)[i].idx == IndexOf(queued, out, p)
    decreases |recs|
  {
    var n := |recs| - 1;
    if i < n {
      TagAt(queued, out, recs[..n], i);
    } else if n > 0 {
      TagAt(queued, out, recs[..n], n - 1);
    }
  }

  lemma {:induction false} TagLength(queued: seq<R.Message>, out: seq<S.Outgoing>, recs: seq<S.Sealed>)
    ensures |Tag(queued, out, recs)| == |recs|
    ensures Records(Tag(queued, out, recs)) == recs
  {
    if recs != [] {
      TagAt(queued, out, recs, 0);
    }
    forall i | 0 <= i < |recs|
      ensures |Tag(queued, out, recs)| == |recs| && Tag(queued, out, recs)[i].x == recs[i]
    {
      TagAt(queued, out, recs, i);
    }
  }

  lemma {:induction false} CoversAt(fl: seq<S.Entry>, p: S.Pos, recs: seq<S.Sealed>, q: S.Pos, i: nat)
    returns (off: nat)
    requires F.Covers(fl, p, recs, q) && i < |recs|
    ensures recs[i].entry < |fl| && F.IsPiece(fl[recs[i].entry], off, recs[i])
    decreases |recs|
  {
    if i == 0 {
      off := p.off;
    } else {
      off := CoversAt(fl, F.After(fl[p.entry], p, F.PieceLen(fl[p.entry], recs[0])), recs[1..], q, i - 1);
    }
  }

  // The record carries a slice of the message its tag names.
  lemma {:induction false} TaggedRecordOk(keys: Keys, s: S.Sender, queued: seq<R.Message>, msgEpoch: seq<nat>,
                                          x: S.Sealed, off: nat, w': S.WriteState, e: Sent)
    requires KeysOk(keys) && SenderOk(keys, s, queued, msgEpoch)
    requires x.entry < |s.out| && F.IsPiece(S.Flight(s.out)[x.entry], off, x)
    requires CountedRecord(s.ws, x, w') && x.rec.Fits()
    requires e.x == x && (IndexOf(queued, s.out, x.entry) >= 0 ==> e.idx == IndexOf(queued, s.out, x.entry))
    ensures RecordOk(keys, queued, msgEpoch, e)
  {
    var rec := x.rec;
    assert keys(rec.epoch).Sound();
    S.FlightAt(s.out, x.entry);
    var m := s.out[x.entry];
    if !m.isCcs {
      assert EntryOk(queued, msgEpoch, s.out, x.entry);
      var msg := queued[e.idx];
      S.MessageParses(msg.typ, e.idx % SEQ_LIMIT, msg.body);
      assert CarriesSlice(x.plain, msg, e.idx, off, F.PieceLen(S.Flight(s.out)[x.entry], x));
    }
  }

  // What sealing one packet does, for the log.
  ghost predicate PacketSealed(keys: Keys, s: S.Sender, queued: seq<R.Message>, msgEpoch: seq<nat>, sent: seq<Sent>,
                               w: S.WriteState) {
    && (forall i :: 0 <= i < |sent| ==>
          RecordOk(keys, queued, msgEpoch, sent[i]) && CountedRecord(s.ws, sent[i].x, w)
          && (sent[i].x.rec.typ == RT_HANDSHAKE ==> |queued| - MAX_FLIGHT <= sent[i].idx < |queued|))
    && (forall i, j :: 0 <= i < j < |sent| ==> Ordered(sent[i], sent[j]))
  }

  lemma {:induction false} PacketIsSealed(keys: Keys, c: Sys, mtu: nat) returns (w: S.WriteState)
    requires KeysOk(keys) && SenderOk(keys, c.s, c.queued, c.msgEpoch) && c.s.written < |c.s.out|
    ensures var (s', ok, recs) := S.SealMessages(c.s, mtu);
            && PacketSealed(keys, c.s, c.queued, c.msgEpoch, Tag(c.queued, c.s.out, recs), w)
            && Counted(c.s.ws, recs, w) && Spent(w, s'.ws) && |recs| <= MAX_FLIGHT
  {
    var (s', ok, recs) := S.SealMessages(c.s, mtu);
    var sent := Tag(c.queued, c.s.out, recs);
    S.SealMessagesKeepsInv(c.s, mtu);
    F.SealMessagesCovers(c.s, mtu);
    w := SealMessagesCounts(c.s, mtu);
    TagLength(c.queued, c.s.out, recs);
    forall i | 0 <= i < |sent|
      ensures RecordOk(keys, c.queued, c.msgEpoch, sent[i]) && CountedRecord(c.s.ws, sent[i].x, w)
      ensures sent[i].x.rec.typ == RT_HANDSHAKE ==> |c.queued| - MAX_FLIGHT <= sent[i].idx < |c.queued|
    {
      var off := CoversAt(S.Flight(c.s.out), S.At(c.s), recs, S.At(s'), i);
      TagAt(c.queued, c.s.out, recs, i);
      CountedAt(c.s.ws, recs, w, i);
      TaggedRecordOk(keys, c.s, c.queued, c.msgEpoch, recs[i], off, w, sent[i]);
      TagInFlight(c.queued, c.msgEpoch, c.s.out, S.Flight(c.s.out), recs[i], off, sent[i]);
    }
    forall i, j | 0 <= i < j < |sent|
      ensures Ordered(sent[i], sent[j])
    {
      TagAt(c.queued, c.s.out, recs, i);
      TagAt(c.queued, c.s.out, recs, j);
      if recs[i].rec.epoch == recs[j].rec.epoch {
        CountedOrder(c.s.ws, recs, w, i, j);
      }
    }
  }

  // A handshake record's message is one of the last seven queued.
  lemma {:induction false} TagInFlight(queued: seq<R.Message>, msgEpoch: seq<nat>, out: seq<S.Outgoing>,
                                       fl: seq<S.Entry>, x: S.Sealed, off: nat, e: Sent)
    requires FlightOk(queued, msgEpoch, out) && |out| <= MAX_FLIGHT && fl == S.Flight(out)
    requires x.entry < |out| && F.IsPiece(fl[x.entry], off, x)
    requires e.x == x && (IndexOf(queued, out, x.entry) >= 0 ==> e.idx == IndexOf(queued, out, x.entry))
    ensures x.rec.typ == RT_HANDSHAKE ==> |queued| - MAX_FLIGHT <= e.idx < |queued|
  {
    S.FlightAt(out, x.entry);
    MessagesMonotone(out, x.entry);
    if !out[x.entry].isCcs {
      assert EntryOk(queued, msgEpoch, out, x.entry);
    }
  }

  lemma {:induction false} LogGrows(keys: Keys, s: S.Sender, queued: seq<R.Message>, msgEpoch: seq<nat>,
                                    log: seq<Sent>, sent: seq<Sent>, w: S.WriteState, ws': S.WriteState)
    requires LogOk(keys, s.ws, queued, msgEpoch, log) && PacketSealed(keys, s, queued, msgEpoch, sent, w)
    requires ws' == s.ws.(seqNum := ws'.seqNum, lastSeqNum := ws'.lastSeqNum)
    requires ws'.seqNum >= w.seqNum >= s.ws.seqNum && ws'.lastSeqNum >= w.lastSeqNum >= s.ws.lastSeqNum
    requires w.epoch == s.ws.epoch
    ensures LogOk(keys, ws', queued, msgEpoch, log + sent)
  {
  }

  // What a packet step comes to.
  ghost predicate PacketResult(keys: Keys, c: Sys, s': S.Sender, recs: seq<S.Sealed>, w: S.WriteState) {
    && SenderOk(keys, s', c.queued, c.msgEpoch)
    && PacketSealed(keys, c.s, c.queued, c.msgEpoch, Tag(c.queued, c.s.out, recs), w)
    && Counted(c.s.ws, recs, w) && Spent(w, s'.ws) && |recs| <= MAX_FLIGHT
  }

  lemma {:induction false} SendPacketResult(keys: Keys, c: Sys, mtu: nat, accepted: bool) returns (w: S.WriteState)
    requires KeysOk(keys) && SenderOk(keys, c.s, c.queued, c.msgEpoch) && c.s.written < |c.s.out|
    ensures var (s', ok, recs) := S.SendPacket(c.s, mtu, accepted); PacketResult(keys, c, s', recs, w)
  {
    w := PacketIsSealed(keys, c, mtu);
    S.SealMessagesKeepsInv(c.s, mtu);
    var (s1, ok1, recs) := S.SealMessages(c.s, mtu);
    CountedFields(c.s.ws, recs, w);
    var s' := S.SendPacket(c.s, mtu, accepted).0;
    RewindKeepsSender(keys, c.s, c.queued, c.msgEpoch, s1, s');
  }

  lemma RewindKeepsSender(keys: Keys, s: S.Sender, queued: seq<R.Message>, msgEpoch: seq<nat>, s1: S.Sender,
                          s': S.Sender)
    requires SenderOk(keys, s, queued, msgEpoch) && S.Inv(s1)
    requires s1 == s.(ws := s1.ws, written := s1.written, offset := s1.offset)
    requires s1.ws == s.ws.(seqNum := s1.ws.seqNum, lastSeqNum := s1.ws.lastSeqNum)
    requires s' == s1 || s' == s1.(written := s.written, offset := s.offset)
    ensures SenderOk(keys, s', queued, msgEpoch)
  {
  }

  lemma {:induction false} PacketKeepsLog(keys: Keys, c: Sys, s': S.Sender, recs: seq<S.Sealed>, w: S.WriteState)
    requires LogOk(keys, c.s.ws, c.queued, c.msgEpoch, c.log) && PacketResult(keys, c, s', recs, w)
    requires s'.ws.seqNum >= c.s.ws.seqNum && s'.ws.lastSeqNum >= c.s.ws.lastSeqNum
    ensures LogOk(keys, s'.ws, c.queued, c.msgEpoch, c.log + Tag(c.queued, c.s.out, recs))
  {
    CountedFields(c.s.ws, recs, w);
    NoWrap(c.s.ws, recs, w, s'.ws);
    LogGrows(keys, c.s, c.queued, c.msgEpoch, c.log, Tag(c.queued, c.s.out, recs), w, s'.ws);
  }

  lemma {:induction false} PacketKeepsGood(keys: Keys, maxLen: nat, c: Sys, mtu: nat, accepted: bool)
    requires Good(keys, c) && Enabled(keys, c, Packet(mtu, accepted)) && KeysOk(keys)
    ensures Good(keys, Apply(keys, maxLen, c, Packet(mtu, accepted)))
  {
    var (s', ok, recs) := S.SendPacket(c.s, mtu, accepted);
    var w := SendPacketResult(keys, c, mtu, accepted);
    var sent := Tag(c.queued, c.s.out, recs);
    PacketKeepsLog(keys, c, s', recs, w);
    ReceiverIgnoresLog(keys, c.r, c.queued, c.delivered, c.log, sent, c.via);
    NetGrows(c, sent, ok && accepted, s');
  }

  lemma {:induction false} NetGrows(c: Sys, sent: seq<Sent>, taken: bool, s': S.Sender)
    requires NetOk(c)
    ensures NetOk(c.(s := s', log := c.log + sent, packets := if taken then c.packets + [sent] else c.packets))
  {
  }
}
