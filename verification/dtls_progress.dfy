// The transport gets on: from wherever a run has come, the message the receiver waits
// for can be delivered.

module DtlsProgress {
  import opened Wire
  import opened Ciphers
  import opened Reassembly
  import opened ReplayWindow
  import opened DtlsTransport
  import opened DtlsWindow
  import opened DtlsReceiveSteps
  import opened DtlsDelivery
  import opened DtlsOpening
  import opened DtlsSealing
  import A = DtlsAssembly
  import R = DtlsReceiver
  import S = DtlsSender
  import F = Fragmentation
  import D = DtlsSendSteps

  // Further promises of every run: what the replay window has accepted was sealed, and a
  // ChangeCipherSpec record holds its one byte.

  ghost predicate AcceptedWithin(r: R.Receiver, log: seq<Sent>, n: nat)
    requires n <= |log|
  {
    forall t :: t in r.accepted ==> exists i :: 0 <= i < n && log[i].x.rec.epoch == r.rEpoch && t == NumberOf(log[i])
  }

  function NumberOf(e: Sent): nat {
    Sequence64(e.x.rec.epoch, e.x.rec.seqNum)
  }

  predicate CcsByte(e: Sent) {
    e.x.rec.typ == RT_CHANGE_CIPHER_SPEC ==> e.x.plain == [MT_CCS]
  }

  ghost predicate Sealed(c: Sys) {
    && AcceptedWithin(c.r, c.log, |c.log|)
    && forall i :: 0 <= i < |c.log| ==> CcsByte(c.log[i])
  }

  lemma {:induction false} AcceptedGrows(r: R.Receiver, log: seq<Sent>, n: nat, log': seq<Sent>, n': nat)
    requires n <= |log| && n <= n' <= |log'| && log[..n] == log'[..n] && AcceptedWithin(r, log, n)
    ensures AcceptedWithin(r, log', n')
  {
    forall t | t in r.accepted
      ensures exists i :: 0 <= i < n' && log'[i].x.rec.epoch == r.rEpoch && t == NumberOf(log'[i])
    {
      var i :| 0 <= i < n && log[i].x.rec.epoch == r.rEpoch && t == NumberOf(log[i]);
      assert log'[i] == log[..n][i];
    }
  }

  // Opening can only add the number of the record in front.
  ghost predicate Adds(r: R.Receiver, e: Sent, r': R.Receiver) {
    && r'.rEpoch == r.rEpoch && r'.readSeq == r.readSeq && r'.cipher == r.cipher && r'.hasMessage == r.hasMessage
    && (r'.accepted == r.accepted || (e.x.rec.epoch == r.rEpoch && r'.accepted == r.accepted + {NumberOf(e)}))
  }

  lemma {:induction false} FragmentsChangeSlots(r: R.Receiver, b: seq<Byte>, maxLen: nat)
    requires |r.slots| == MAX_FLIGHT
    ensures R.ReceiveFragments(r, b, maxLen).0 == r.(slots := R.ReceiveFragments(r, b, maxLen).0.slots)
    decreases |b|
  {
    var frag := ParseFragment(b);
    if |b| > 0 && frag.Some? {
      FragmentChangesSlot(r, frag.value, maxLen);
      var (r', alert) := R.ReceiveFragment(r, frag.value, maxLen);
      if alert.None? {
        FragmentsChangeSlots(r', b[HM_HEADER_LENGTH + |frag.value.body|..], maxLen);
      }
    }
  }

  lemma {:induction false} OpeningAdds(keys: Keys, maxLen: nat, c: Sys)
    requires Good(keys, c) && c.buf != []
    ensures c.inbuf != [] && c.inbuf[0] in c.log
    ensures Adds(c.r, c.inbuf[0], R.OpenHandshake(c.r, c.buf, maxLen).0)
  {
    var e := BufferStarts(keys, c);
    LoggedRecordOk(keys, c, e);
    OpenHonestRecord(keys, c, e, S.PacketBytes(Records(c.inbuf[1..])));
    var o := R.OpenRecord(c.r, c.buf);
    if o.status == R.Success && o.typ == RT_HANDSHAKE {
      FragmentsChangeSlots(o.receiver, o.plain, maxLen);
    }
  }

  lemma {:induction false} AddingKeepsSealed(r: R.Receiver, e: Sent, r': R.Receiver, log: seq<Sent>)
    requires AcceptedWithin(r, log, |log|) && e in log && Adds(r, e, r')
    ensures AcceptedWithin(r', log, |log|)
  {
  }

  lemma {:induction false} StepKeepsSealed(keys: Keys, maxLen: nat, c: Sys, step: Step)
    requires KeysOk(keys) && Good(keys, c) && Enabled(keys, c, step) && Sealed(c)
    ensures Sealed(Apply(keys, maxLen, c, step))
  {
    var c' := Apply(keys, maxLen, c, step);
    match step
    case Packet(mtu, accepted) =>
      var (s', ok, recs) := S.SendPacket(c.s, mtu, accepted);
      PacketCcsBytes(c, mtu, Tag(c.queued, c.s.out, recs));
      AcceptedGrows(c.r, c.log, |c.log|, c'.log, |c'.log|);
    case Open =>
      OpeningAdds(keys, maxLen, c);
      AddingKeepsSealed(c.r, c.inbuf[0], c'.r, c.log);
    case OpenCcs =>
      if !c.r.hasCcs {
        OpeningAdds(keys, maxLen, c);
        AddingKeepsSealed(c.r, c.inbuf[0], c'.r, c.log);
      }
    case _ =>
  }

  lemma {:induction false} PacketCcsBytes(c: Sys, mtu: nat, sent: seq<Sent>)
    requires S.Inv(c.s) && c.s.written < |c.s.out|
    requires sent == Tag(c.queued, c.s.out, S.SealMessages(c.s, mtu).2)
    ensures forall i :: 0 <= i < |sent| ==> CcsByte(sent[i])
  {
    var (s', ok, recs) := S.SealMessages(c.s, mtu);
    F.SealMessagesCovers(c.s, mtu);
    D.TagLength(c.queued, c.s.out, recs);
    forall i | 0 <= i < |sent|
      ensures CcsByte(sent[i])
    {
      D.TagAt(c.queued, c.s.out, recs, i);
      var off := D.CoversAt(S.Flight(c.s.out), S.At(c.s), recs, S.At(s'), i);
    }
  }

  lemma {:induction false} RunKeepsSealed(keys: Keys, maxLen: nat, c: Sys, steps: seq<Step>, c': Sys)
    requires KeysOk(keys) && Good(keys, c) && Sealed(c) && Reaches(keys, maxLen, c, steps, c')
    ensures Good(keys, c') && Sealed(c')
    decreases |steps|
  {
    if steps != [] {
      StepKeepsGood(keys, maxLen, c, steps[0]);
      StepKeepsSealed(keys, maxLen, c, steps[0]);
      RunKeepsSealed(keys, maxLen, Apply(keys, maxLen, c, steps[0]), steps[1..], c');
    }
  }

  lemma {:induction false} RunsJoin(keys: Keys, maxLen: nat, c: Sys, a: seq<Step>, mid: Sys, b: seq<Step>, c': Sys)
    requires Reaches(keys, maxLen, c, a, mid) && Reaches(keys, maxLen, mid, b, c')
    ensures Reaches(keys, maxLen, c, a + b, c')
    decreases |a|
  {
    if a == [] {
      assert a + b == b;
    } else {
      assert (a + b)[0] == a[0] && (a + b)[1..] == a[1..] + b;
      RunsJoin(keys, maxLen, Apply(keys, maxLen, c, a[0]), a[1..], mid, b, c');
    }
  }

  lemma {:induction false} OneStepRuns(keys: Keys, maxLen: nat, c: Sys, step: Step)
    requires Enabled(keys, c, step)
    ensures Reaches(keys, maxLen, c, [step], Apply(keys, maxLen, c, step))
  {
    var c' := Apply(keys, maxLen, c, step);
    assert [step][1..] == [] && Reaches(keys, maxLen, c', [], c');
  }

  // Opening what does no harm.

  // A record the receiver can open without an alert: of another epoch, a replay, or within
  // the limits and not of a message out of turn.
  ghost predicate Harmless(maxLen: nat, c: Sys, e: Sent) {
    e.x.rec.epoch == c.r.rEpoch && !Rejects(c.r.accepted, NumberOf(e)) ==>
      && |e.x.plain| <= MAX_PLAIN_LENGTH
      && if e.x.rec.typ == RT_HANDSHAKE then e.idx < |c.queued| && InTurn(maxLen, c, e.idx) else c.r.cipher.isNull
  }

  ghost predicate InTurn(maxLen: nat, c: Sys, idx: nat)
    requires idx < |c.queued|
  {
    && |c.queued[idx].body| <= maxLen
    && idx % SEQ_LIMIT != c.r.readSeq + MAX_FLIGHT
    && (c.r.rEpoch == 1 ==> idx % SEQ_LIMIT == c.r.readSeq)
  }

  // The messages the numbers stand for: those of the window, and message idx if it is not of it.
  ghost function MessagesFor(c: Sys, idx: nat): map<nat, R.Message>
    requires idx < |c.queued|
  {
    var numbers := Range(c.r.readSeq, c.r.readSeq + MAX_FLIGHT);
    var window := map n | n in numbers && |c.delivered| + n - c.r.readSeq < |c.queued|
                    :: c.queued[|c.delivered| + n - c.r.readSeq];
    if c.r.readSeq <= idx % SEQ_LIMIT < c.r.readSeq + MAX_FLIGHT then window
    else window[idx % SEQ_LIMIT := c.queued[idx]]
  }

  lemma {:induction false} WindowHolds(keys: Keys, c: Sys, idx: nat)
    requires Good(keys, c) && idx < |c.queued|
    ensures A.Holds(c.r, MessagesFor(c, idx))
  {
    forall i | 0 <= i < MAX_FLIGHT && c.r.slots[i].Some?
      ensures A.PartOf(c.r.slots[i].value, MessagesFor(c, idx))
    {
      assert R.SlotOk(c.r, i, c.r.slots[i].value);
      assert SlotMatches(c.r, c.queued, |c.delivered|, c.log, c.via, c.r.slots[i].value);
    }
  }

  // The fragment in an honest record is one the ring wants.
  lemma {:induction false} FragmentWanted(keys: Keys, maxLen: nat, c: Sys, e: Sent) returns (frag: Fragment)
    requires Good(keys, c) && e in c.log && e.x.rec.typ == RT_HANDSHAKE && e.x.rec.epoch == c.r.rEpoch
    requires !Rejects(c.r.accepted, NumberOf(e)) && e.idx < |c.queued| && InTurn(maxLen, c, e.idx)
    ensures e.x.plain == RunBytes([frag]) && A.Wanted(c.r, frag, MessagesFor(c, e.idx), maxLen)
    ensures frag.header.seqNum == e.idx % SEQ_LIMIT && ParseFragment(e.x.plain) == Some(frag)
  {
    LoggedRecordOk(keys, c, e);
    var msg := c.queued[e.idx];
    var off, len := SliceParses(e.x.plain, msg, e.idx);
    frag := Fragment(HmHeader(msg.typ, |msg.body|, e.idx % SEQ_LIMIT, off, len), msg.body[off..off + len]);
    assert [frag][1..] == [];
    if c.r.readSeq <= e.idx % SEQ_LIMIT < c.r.readSeq + MAX_FLIGHT {
      NumberNamesMessage(keys, c, e);
    }
    assert A.SliceOf(frag, MessagesFor(c, e.idx));
  }

  // What opening the record in front does to the receiver when it does no harm.
  lemma {:induction false} HarmlessIsOpened(keys: Keys, maxLen: nat, c: Sys)
    requires Good(keys, c) && c.buf != [] && c.inbuf != [] && Harmless(maxLen, c, c.inbuf[0])
    requires CcsByte(c.inbuf[0])
    ensures !R.OpenHandshake(c.r, c.buf, maxLen).1.Error?
  {
    var e := BufferStarts(keys, c);
    LoggedRecordOk(keys, c, e);
    var rest := S.PacketBytes(Records(c.inbuf[1..]));
    assert c.buf == RecordBytes(e.x.rec) + rest;
    if OpensTo(c.r, e.x.rec, e.x.plain) {
      if e.x.rec.typ == RT_HANDSHAKE {
        var frag := FragmentWanted(keys, maxLen, c, e);
        WindowHolds(keys, c, e.idx);
        GoodRecordIsTaken(c.r, e.x.rec, rest, [frag], MessagesFor(c, e.idx), maxLen);
      } else {
        CcsRecordIsFlagged(c.r, e.x.rec, rest, e.x.plain, maxLen);
      }
    } else {
      BadRecordIsDropped(c.r, e.x.rec, rest, maxLen);
    }
  }

  // A run that has not failed.
  ghost predicate Live(keys: Keys, c: Sys) {
    Good(keys, c) && Sealed(c) && c.alive
  }

  // Reading has moved on in the datagram, and the receiver still waits for the same message.
  ghost predicate Reads(c: Sys, c': Sys) {
    && c' == c.(r := c'.r, buf := c'.buf, inbuf := c'.inbuf, via := c'.via)
    && c'.r.rEpoch == c.r.rEpoch && c'.r.readSeq == c.r.readSeq && c'.r.cipher == c.r.cipher
    && c'.r.hasMessage == c.r.hasMessage && c.r.accepted <= c'.r.accepted
  }

  lemma {:induction false} OpenOne(keys: Keys, maxLen: nat, c: Sys)
    requires KeysOk(keys) && Live(keys, c) && c.inbuf != [] && Harmless(maxLen, c, c.inbuf[0])
    ensures Enabled(keys, c, Open)
    ensures var c' := Apply(keys, maxLen, c, Open);
            && Live(keys, c') && Reads(c, c') && Adds(c.r, c.inbuf[0], c'.r)
            && c'.inbuf == Rest(c.inbuf, c.buf, R.OpenHandshake(c.r, c.buf, maxLen).2)
  {
    assert c.inbuf[0] in c.log;
    assert CcsByte(c.inbuf[0]);
    BufferNotEmpty(c);
    HarmlessIsOpened(keys, maxLen, c);
    OpeningAdds(keys, maxLen, c);
    StepKeepsGood(keys, maxLen, c, Open);
    StepKeepsSealed(keys, maxLen, c, Open);
  }

  lemma {:induction false} BufferNotEmpty(c: Sys)
    requires NetOk(c) && c.inbuf != []
    ensures c.buf != []
  {
    assert Records(c.inbuf) != [];
  }

  lemma {:induction false} StaysHarmless(maxLen: nat, c: Sys, e: Sent, c': Sys)
    requires Reads(c, c') && Harmless(maxLen, c, e)
    ensures Harmless(maxLen, c', e)
  {
  }

  // What is left of a datagram can be read to its end.
  lemma {:induction false} Drains(keys: Keys, maxLen: nat, c: Sys) returns (steps: seq<Step>, c': Sys)
    requires KeysOk(keys) && Live(keys, c) && forall i :: 0 <= i < |c.inbuf| ==> Harmless(maxLen, c, c.inbuf[i])
    ensures Reaches(keys, maxLen, c, steps, c') && Live(keys, c') && Reads(c, c') && c'.inbuf == []
    decreases |c.inbuf|
  {
    if c.inbuf == [] {
      steps, c' := [], c;
    } else {
      OpenOne(keys, maxLen, c);
      var c1 := Apply(keys, maxLen, c, Open);
      forall i | 0 <= i < |c1.inbuf|
        ensures Harmless(maxLen, c1, c1.inbuf[i])
      {
        StaysHarmless(maxLen, c, c.inbuf[i + 1], c1);
      }
      var more;
      more, c' := Drains(keys, maxLen, c1);
      steps := [Open] + more;
      assert steps[1..] == more;
    }
  }

  // Opening fresh records.


  // The message waited for is held up to offset n.
  ghost predicate HasTo(r: R.Receiver, n: nat) {
    |r.slots| == MAX_FLIGHT && r.slots[r.readSeq % MAX_FLIGHT].Some? && Range(0, n) <= A.Held(r, r.readSeq)
  }

  ghost predicate Fresh(keys: Keys, maxLen: nat, version: nat, c: Sys, n: nat) {
    && Live(keys, c) && n < |c.log| && AcceptedWithin(c.r, c.log, n)
    && c.inbuf != [] && c.inbuf[0] == c.log[n]
    && VersionFits(c.r.cipher, version) && Moderate(version, c.log[n].x) && Harmless(maxLen, c, c.log[n])
  }

  // The numbers of the log grow, so a record behind all accepted ones is not rejected.
  lemma {:induction false} FreshIsNotRejected(keys: Keys, c: Sys, n: nat)
    requires Good(keys, c) && n < |c.log| && AcceptedWithin(c.r, c.log, n) && c.log[n].x.rec.epoch == c.r.rEpoch
    ensures !Rejects(c.r.accepted, NumberOf(c.log[n]))
  {
    forall t | t in c.r.accepted
      ensures t < NumberOf(c.log[n])
    {
      var i :| 0 <= i < n && c.log[i].x.rec.epoch == c.r.rEpoch && t == NumberOf(c.log[i]);
      OrderedAt(c.log, i, n);
    }
  }

  // Just the record in front is consumed.
  lemma {:induction false} OneIsRead(keys: Keys, c: Sys, used: nat)
    requires Good(keys, c) && c.inbuf != [] && used == |RecordBytes(c.inbuf[0].x.rec)|
    ensures Rest(c.inbuf, c.buf, used) == c.inbuf[1..]
  {
    BufferNotEmpty(c);
    var e := BufferStarts(keys, c);
    if c.inbuf[1..] != [] {
      assert Records(c.inbuf[1..]) != [];
    }
  }

  lemma {:induction false} OtherEpochIsDropped(keys: Keys, maxLen: nat, version: nat, c: Sys, n: nat)
    requires Fresh(keys, maxLen, version, c, n) && c.log[n].x.rec.epoch != c.r.rEpoch
    ensures R.OpenHandshake(c.r, c.buf, maxLen) == (c.r, R.Discard, |RecordBytes(c.log[n].x.rec)|)
  {
    BufferNotEmpty(c);
    var e := BufferStarts(keys, c);
    LoggedRecordOk(keys, c, e);
    BadRecordIsDropped(c.r, e.x.rec, S.PacketBytes(Records(c.inbuf[1..])), maxLen);
  }

  lemma {:induction false} FreshCcsIsOpened(keys: Keys, maxLen: nat, version: nat, c: Sys, n: nat)
    requires Fresh(keys, maxLen, version, c, n) && c.log[n].x.rec.epoch == c.r.rEpoch
    requires c.log[n].x.rec.typ != RT_HANDSHAKE
    ensures var (r', status, used) := R.OpenHandshake(c.r, c.buf, maxLen);
            r'.slots == c.r.slots && used == |RecordBytes(c.log[n].x.rec)|
  {
    BufferNotEmpty(c);
    var e := BufferStarts(keys, c);
    LoggedRecordOk(keys, c, e);
    FreshIsNotRejected(keys, c, n);
    CcsRecordIsFlagged(c.r, e.x.rec, S.PacketBytes(Records(c.inbuf[1..])), e.x.plain, maxLen);
  }

  lemma {:induction false} FreshFragmentIsOpened(keys: Keys, maxLen: nat, version: nat, c: Sys, n: nat)
    returns (frag: Fragment)
    requires Fresh(keys, maxLen, version, c, n) && c.log[n].x.rec.epoch == c.r.rEpoch
    requires c.log[n].x.rec.typ == RT_HANDSHAKE
    ensures ParseFragment(c.log[n].x.plain) == Some(frag) && frag.header.seqNum == c.log[n].idx % SEQ_LIMIT
    ensures var (r', status, used) := R.OpenHandshake(c.r, c.buf, maxLen);
            && used == |RecordBytes(c.log[n].x.rec)| && |r'.slots| == MAX_FLIGHT
            && A.Held(r', c.r.readSeq) == A.Held(c.r, c.r.readSeq) + A.Covered([frag], c.r.readSeq)
            && (c.r.slots[c.r.readSeq % MAX_FLIGHT].Some? || frag.header.seqNum == c.r.readSeq ==>
                  r'.slots[c.r.readSeq % MAX_FLIGHT].Some?)
  {
    BufferNotEmpty(c);
    var e := BufferStarts(keys, c);
    LoggedRecordOk(keys, c, e);
    FreshIsNotRejected(keys, c, n);
    frag := FragmentWanted(keys, maxLen, c, e);
    WindowHolds(keys, c, e.idx);
    var messages, rest := MessagesFor(c, e.idx), S.PacketBytes(Records(c.inbuf[1..]));
    assert OpensTo(c.r, e.x.rec, RunBytes([frag]));
    GoodRecordIsTaken(c.r, e.x.rec, rest, [frag], messages, maxLen);
    if c.r.slots[c.r.readSeq % MAX_FLIGHT].Some? || frag.header.seqNum == c.r.readSeq {
      GoodRecordTakesSlot(c.r, e.x.rec, rest, frag, messages, maxLen);
    }
  }

  // Entry p of the flight is the message the receiver waits for.
  ghost predicate Awaits(c: Sys, p: nat) {
    && p < |c.s.out| && !c.s.out[p].isCcs && !c.r.hasMessage
    && |c.delivered| < |c.queued| == |c.msgEpoch| && IndexOf(c.queued, c.s.out, p) == |c.delivered|
    && c.msgEpoch[|c.delivered|] == c.r.rEpoch
  }

  // The receiver holds of entry p what lies before this position.
  ghost predicate HasBefore(r: R.Receiver, p: nat, len: nat, pos: S.Pos) {
    && (pos.entry > p ==> HasTo(r, len))
    && (pos.entry == p && pos.off > 0 ==> HasTo(r, pos.off))
  }

  // The record is the piece at this position, under its message's number.
  ghost predicate PieceAt(c: Sys, fl: seq<S.Entry>, pos: S.Pos, e: Sent) {
    && pos.entry < |fl| == |c.s.out| && e.x.entry == pos.entry && F.IsPiece(fl[pos.entry], pos.off, e.x)
    && (!fl[pos.entry].isCcs ==> e.idx == IndexOf(c.queued, c.s.out, pos.entry))
  }

  // What the flight holds at entry p.
  lemma {:induction false} AwaitedEntry(keys: Keys, c: Sys, p: nat)
    requires Good(keys, c) && Awaits(c, p)
    ensures var m := S.Flight(c.s.out)[p];
            !m.isCcs && m.epoch == c.r.rEpoch && m.body == c.queued[|c.delivered|].body && m.header.Fits()
    ensures c.r.readSeq == |c.delivered| % SEQ_LIMIT
  {
    S.FlightAt(c.s.out, p);
    assert EntryOk(c.queued, c.msgEpoch, c.s.out, p);
    var msg := c.queued[|c.delivered|];
    S.MessageParses(msg.typ, |c.delivered| % SEQ_LIMIT, msg.body);
  }

  lemma OtherReaches(r: R.Receiver, r': R.Receiver, p: nat, len: nat, pos: S.Pos, m: S.Entry, done: nat)
    requires pos.entry != p && r'.slots == r.slots && r'.readSeq == r.readSeq && HasBefore(r, p, len, pos)
    ensures HasBefore(r', p, len, F.After(m, pos, done))
  {
  }

  lemma {:induction false} AwaitedPiece(keys: Keys, c: Sys, p: nat, pos: S.Pos, e: Sent)
    requires Good(keys, c) && Awaits(c, p) && PieceAt(c, S.Flight(c.s.out), pos, e) && pos.entry == p
    ensures e.x.rec.typ == RT_HANDSHAKE && e.x.rec.epoch == c.r.rEpoch && e.idx % SEQ_LIMIT == c.r.readSeq
    ensures |S.Flight(c.s.out)[p].body| == |c.queued[|c.delivered|].body|
  {
    AwaitedEntry(keys, c, p);
  }

  // The state of the ring after the record at pos has been opened.
  lemma {:induction false} OpeningReaches(keys: Keys, maxLen: nat, version: nat, c: Sys, n: nat, p: nat, pos: S.Pos,
                                          r': R.Receiver, status: R.Status, used: nat)
    requires Fresh(keys, maxLen, version, c, n) && Awaits(c, p) && PieceAt(c, S.Flight(c.s.out), pos, c.log[n])
    requires HasBefore(c.r, p, |c.queued[|c.delivered|].body|, pos)
    requires (r', status, used) == R.OpenHandshake(c.r, c.buf, maxLen) && r'.readSeq == c.r.readSeq
    ensures used == |RecordBytes(c.log[n].x.rec)|
    ensures var m := S.Flight(c.s.out)[pos.entry];
            HasBefore(r', p, |c.queued[|c.delivered|].body|, F.After(m, pos, F.PieceLen(m, c.log[n].x)))
  {
    var e, m, len := c.log[n], S.Flight(c.s.out)[pos.entry], |c.queued[|c.delivered|].body|;
    if pos.entry == p {
      AwaitedPiece(keys, c, p, pos, e);
    }
    if e.x.rec.epoch != c.r.rEpoch {
      OtherEpochIsDropped(keys, maxLen, version, c, n);
      OtherReaches(c.r, r', p, len, pos, m, F.PieceLen(m, e.x));
    } else if e.x.rec.typ != RT_HANDSHAKE {
      FreshCcsIsOpened(keys, maxLen, version, c, n);
      OtherReaches(c.r, r', p, len, pos, m, F.PieceLen(m, e.x));
    } else {
      var frag := FreshFragmentIsOpened(keys, maxLen, version, c, n);
      PieceParses(m, pos.off, e.x, frag);
      PieceReaches(c.r, r', p, len, pos, m, e.x, frag);
    }
  }

  lemma {:induction false} PieceParses(m: S.Entry, off: nat, x: S.Sealed, frag: Fragment)
    requires !m.isCcs && F.IsPiece(m, off, x) && ParseFragment(x.plain) == Some(frag)
    ensures frag.header.fragOff == off && |frag.body| == F.PieceLen(m, x)
  {
    var len := F.PieceLen(m, x);
    ParseFragmentInverts(m.header.(fragOff := off, fragLen := len), m.body[off..off + len], []);
    assert x.plain + [] == x.plain;
  }

  lemma {:induction false} PieceReaches(r: R.Receiver, r': R.Receiver, p: nat, len: nat, pos: S.Pos, m: S.Entry,
                                        x: S.Sealed, frag: Fragment)
    requires |r.slots| == MAX_FLIGHT && |r'.slots| == MAX_FLIGHT && !m.isCcs && F.IsPiece(m, pos.off, x)
    requires frag.header.fragOff == pos.off && |frag.body| == F.PieceLen(m, x)
    requires A.Held(r', r.readSeq) == A.Held(r, r.readSeq) + A.Covered([frag], r.readSeq)
    requires r.slots[r.readSeq % MAX_FLIGHT].Some? || frag.header.seqNum == r.readSeq ==>
               r'.slots[r.readSeq % MAX_FLIGHT].Some?
    requires pos.entry == p ==> frag.header.seqNum == r.readSeq && |m.body| == len
    requires HasBefore(r, p, len, pos) && r'.readSeq == r.readSeq
    ensures HasBefore(r', p, len, F.After(m, pos, F.PieceLen(m, x)))
  {
    assert [frag][1..] == [];
  }

  // The record can be read when its turn comes.
  ghost predicate Readable(maxLen: nat, version: nat, c: Sys, e: Sent) {
    && Moderate(version, e.x) && Harmless(maxLen, c, e)
    && (e.x.entry < |c.s.out| && !c.s.out[e.x.entry].isCcs ==> e.idx == IndexOf(c.queued, c.s.out, e.x.entry))
  }

  lemma {:induction false} StaysReadable(maxLen: nat, version: nat, c: Sys, e: Sent, c': Sys)
    requires Reads(c, c') && Readable(maxLen, version, c, e)
    ensures Readable(maxLen, version, c', e)
  {
    StaysHarmless(maxLen, c, e, c');
  }

  // The log is readable from n on.
  ghost predicate AllReadable(maxLen: nat, version: nat, c: Sys, log: seq<Sent>, n: nat) {
    forall i :: n <= i < |log| ==> Readable(maxLen, version, c, log[i])
  }

  lemma {:induction false} AllStayReadable(maxLen: nat, version: nat, c: Sys, n: nat, c': Sys)
    requires Reads(c, c') && AllReadable(maxLen, version, c, c.log, n)
    ensures AllReadable(maxLen, version, c', c'.log, n + 1)
  {
    forall i | n + 1 <= i < |c'.log|
      ensures Readable(maxLen, version, c', c'.log[i])
    {
      StaysReadable(maxLen, version, c, c.log[i], c');
    }
  }

  lemma {:induction false} AcceptedNext(r: R.Receiver, log: seq<Sent>, n: nat, r': R.Receiver)
    requires n < |log| && AcceptedWithin(r, log, n) && Adds(r, log[n], r')
    ensures AcceptedWithin(r', log, n + 1)
  {
    AcceptedGrows(r, log, n, log, n + 1);
  }

  // One record of the datagram is read.
  lemma {:induction false} ReadsOne(keys: Keys, maxLen: nat, version: nat, c: Sys, n: nat, p: nat, pos: S.Pos)
    requires KeysOk(keys) && Fresh(keys, maxLen, version, c, n)
    requires Awaits(c, p) && PieceAt(c, S.Flight(c.s.out), pos, c.log[n])
    requires HasBefore(c.r, p, |c.queued[|c.delivered|].body|, pos)
    ensures Enabled(keys, c, Open)
    ensures var c' := Apply(keys, maxLen, c, Open);
            var m := S.Flight(c.s.out)[pos.entry];
            && Live(keys, c') && Reads(c, c') && c'.inbuf == c.inbuf[1..] && AcceptedWithin(c'.r, c.log, n + 1)
            && HasBefore(c'.r, p, |c.queued[|c.delivered|].body|, F.After(m, pos, F.PieceLen(m, c.log[n].x)))
  {
    OpenOne(keys, maxLen, c);
    var (r', status, used) := R.OpenHandshake(c.r, c.buf, maxLen);
    AcceptedNext(c.r, c.log, n, r');
    OpeningReaches(keys, maxLen, version, c, n, p, pos, r', status, used);
    OneIsRead(keys, c, used);
  }

  // The first record of a datagram of fresh ones, from which the flight goes on at after.
  lemma {:induction false} ReadsFirst(keys: Keys, maxLen: nat, version: nat, c: Sys, n: nat, p: nat, pos: S.Pos,
                                      q: S.Pos) returns (steps: seq<Step>, c': Sys, after: S.Pos)
    requires KeysOk(keys) && Live(keys, c) && n < |c.log| && c.inbuf == c.log[n..] && AcceptedWithin(c.r, c.log, n)
    requires VersionFits(c.r.cipher, version) && AllReadable(maxLen, version, c, c.log, n)
    requires Awaits(c, p) && F.Covers(S.Flight(c.s.out), pos, Records(c.inbuf), q)
    requires HasBefore(c.r, p, |c.queued[|c.delivered|].body|, pos)
    ensures Reaches(keys, maxLen, c, steps, c') && Live(keys, c') && Reads(c, c')
    ensures c'.inbuf == c.log[n + 1..] && AcceptedWithin(c'.r, c.log, n + 1)
    ensures AllReadable(maxLen, version, c', c'.log, n + 1)
    ensures F.Covers(S.Flight(c.s.out), after, Records(c'.inbuf), q)
    ensures HasBefore(c'.r, p, |c.queued[|c.delivered|].body|, after)
  {
    var fl, recs := S.Flight(c.s.out), Records(c.inbuf);
    assert recs[0] == c.log[n].x && recs[1..] == Records(c.inbuf[1..]);
    assert Readable(maxLen, version, c, c.log[n]);
    after := F.After(fl[pos.entry], pos, F.PieceLen(fl[pos.entry], recs[0]));
    S.FlightAt(c.s.out, pos.entry);
    ReadsOne(keys, maxLen, version, c, n, p, pos);
    OneStepRuns(keys, maxLen, c, Open);
    steps, c' := [Open], Apply(keys, maxLen, c, Open);
    AllStayReadable(maxLen, version, c, n, c');
  }

  // A datagram of fresh records, read from its start to its end.
  lemma {:induction false} ReadsDatagram(keys: Keys, maxLen: nat, version: nat, c: Sys, n: nat, p: nat, pos: S.Pos,
                                         q: S.Pos) returns (steps: seq<Step>, c': Sys)
    requires KeysOk(keys) && Live(keys, c) && n <= |c.log| && c.inbuf == c.log[n..] && AcceptedWithin(c.r, c.log, n)
    requires VersionFits(c.r.cipher, version) && AllReadable(maxLen, version, c, c.log, n)
    requires Awaits(c, p) && F.Covers(S.Flight(c.s.out), pos, Records(c.inbuf), q)
    requires HasBefore(c.r, p, |c.queued[|c.delivered|].body|, pos)
    ensures Reaches(keys, maxLen, c, steps, c') && Live(keys, c') && Reads(c, c') && c'.inbuf == []
    ensures HasBefore(c'.r, p, |c.queued[|c.delivered|].body|, q)
    decreases |c.inbuf|
  {
    if c.inbuf == [] {
      steps, c' := [], c;
    } else {
      var one, c1, after := ReadsFirst(keys, maxLen, version, c, n, p, pos, q);
      var more;
      more, c' := ReadsDatagram(keys, maxLen, version, c1, n + 1, p, after, q);
      steps := one + more;
      RunsJoin(keys, maxLen, c, one, c1, more, c');
    }
  }

  // Sending the flight.

  // The keys of a connection of this version, and packets of this size.
  ghost predicate KeysSeal(keys: Keys, version: nat, mtu: nat) {
    0xfe00 <= version < 0xff00 && forall e: nat :: Seals(keys(e), version, mtu)
  }

  // No entry of the flight is out of turn for the receiver.
  ghost predicate FlightInTurn(maxLen: nat, c: Sys) {
    forall q :: 0 <= q < |c.s.out| && c.s.out[q].epoch == c.r.rEpoch ==> EntryInTurn(maxLen, c, q)
  }

  // Where the cipher is already on there is no ChangeCipherSpec, and the encrypted
  // epoch has the one message only.
  ghost predicate EntryInTurn(maxLen: nat, c: Sys, q: nat)
    requires q < |c.s.out|
  {
    if c.s.out[q].isCcs then c.r.cipher.isNull
    else
      var idx := IndexOf(c.queued, c.s.out, q);
      0 <= idx < |c.queued| && |c.queued[idx].body| <= maxLen && (c.r.rEpoch == 1 ==> idx == |c.delivered|)
  }

  ghost predicate Going(keys: Keys, maxLen: nat, version: nat, mtu: nat, c: Sys, p: nat) {
    && Live(keys, c) && c.inbuf == [] && Awaits(c, p) && FlightInTurn(maxLen, c)
    && Ready(c.s, version, mtu)
  }

  // The records of a flight are of the last seven messages, and so is the one waited for.
  lemma {:induction false} FlightIsNear(keys: Keys, c: Sys, p: nat, q: nat)
    requires Good(keys, c) && Awaits(c, p) && q < |c.s.out| && !c.s.out[q].isCcs
    ensures |c.delivered| - MAX_FLIGHT < IndexOf(c.queued, c.s.out, q) < |c.delivered| + MAX_FLIGHT
    ensures IndexOf(c.queued, c.s.out, q) >= 0
  {
    D.MessagesMonotone(c.s.out, p);
    D.MessagesMonotone(c.s.out, q);
    assert EntryOk(c.queued, c.msgEpoch, c.s.out, q);
  }

  lemma NotSevenAhead(k: nat, d: nat)
    requires d - MAX_FLIGHT < k < d + MAX_FLIGHT
    ensures k % SEQ_LIMIT != d % SEQ_LIMIT + MAX_FLIGHT
  {
  }

  // A record cut from the flight now is one the receiver can read.
  lemma {:induction false} CutIsReadable(keys: Keys, maxLen: nat, version: nat, c: Sys, p: nat, off: nat, e: Sent)
    requires Good(keys, c) && Awaits(c, p) && FlightInTurn(maxLen, c)
    requires e.x.entry < |c.s.out| && F.IsPiece(S.Flight(c.s.out)[e.x.entry], off, e.x) && Moderate(version, e.x)
    requires IndexOf(c.queued, c.s.out, e.x.entry) >= 0 ==> e.idx == IndexOf(c.queued, c.s.out, e.x.entry)
    ensures Readable(maxLen, version, c, e)
  {
    var q := e.x.entry;
    S.FlightAt(c.s.out, q);
    if !c.s.out[q].isCcs {
      FlightIsNear(keys, c, p, q);
      NotSevenAhead(e.idx, |c.delivered|);
    }
    if e.x.rec.epoch == c.r.rEpoch {
      assert EntryInTurn(maxLen, c, q);
    }
  }

  // The packet is sealed and goes out.
  lemma {:induction false} PacketGoesOut(keys: Keys, maxLen: nat, version: nat, mtu: nat, c: Sys, p: nat)
    returns (steps: seq<Step>, c': Sys, recs: seq<S.Sealed>)
    requires KeysOk(keys) && Going(keys, maxLen, version, mtu, c, p) && c.s.written < |c.s.out|
    ensures var sent := Tag(c.queued, c.s.out, recs);
            && c' == c.(s := c'.s, log := c.log + sent, packets := c.packets + [sent]) && Records(sent) == recs
            && (forall i :: 0 <= i < |sent| ==> Readable(maxLen, version, c, sent[i]))
    ensures Reaches(keys, maxLen, c, steps, c') && Live(keys, c')
    ensures Ready(c'.s, version, mtu) && c'.s.out == c.s.out
    ensures 0 <= Work(S.Flight(c.s.out), S.At(c'.s)) < Work(S.Flight(c.s.out), S.At(c.s))
    ensures F.Covers(S.Flight(c.s.out), S.At(c.s), recs, S.At(c'.s))
  {
    PacketSeals(c.s, version, mtu);
    recs := S.SendPacket(c.s, mtu, true).2;
    D.TagLength(c.queued, c.s.out, recs);
    var step := Packet(mtu, true);
    OneStepRuns(keys, maxLen, c, step);
    StepKeepsGood(keys, maxLen, c, step);
    StepKeepsSealed(keys, maxLen, c, step);
    steps, c' := [step], Apply(keys, maxLen, c, step);
    TagsAreReadable(keys, maxLen, version, c, p, recs, S.At(c'.s));
  }

  lemma {:induction false} SentIsTail(maxLen: nat, version: nat, c: Sys, sent: seq<Sent>, log': seq<Sent>)
    requires log' == c.log + sent && AcceptedWithin(c.r, c.log, |c.log|)
    requires forall i :: 0 <= i < |sent| ==> Readable(maxLen, version, c, sent[i])
    ensures log'[|c.log|..] == sent && AcceptedWithin(c.r, log', |c.log|)
    ensures AllReadable(maxLen, version, c, log', |c.log|)
  {
    AcceptedGrows(c.r, c.log, |c.log|, log', |c.log|);
    forall i | |c.log| <= i < |log'|
      ensures Readable(maxLen, version, c, log'[i])
    {
      assert log'[i] == sent[i - |c.log|];
    }
  }

  // The packet is sealed, and its datagram taken up by the receiver.
  lemma {:induction false} PacketArrives(keys: Keys, maxLen: nat, version: nat, mtu: nat, c: Sys, p: nat)
    returns (steps: seq<Step>, c': Sys)
    requires KeysOk(keys) && Going(keys, maxLen, version, mtu, c, p) && c.s.written < |c.s.out|
    ensures Reaches(keys, maxLen, c, steps, c') && Live(keys, c') && |c.log| <= |c'.log|
    ensures c' == c.(s := c'.s, log := c'.log, packets := c'.packets, buf := c'.buf, inbuf := c'.inbuf)
    ensures Ready(c'.s, version, mtu) && c'.s.out == c.s.out
    ensures 0 <= Work(S.Flight(c.s.out), S.At(c'.s)) < Work(S.Flight(c.s.out), S.At(c.s))
    ensures c'.inbuf == c'.log[|c.log|..] && AcceptedWithin(c'.r, c'.log, |c.log|)
    ensures F.Covers(S.Flight(c.s.out), S.At(c.s), Records(c'.inbuf), S.At(c'.s))
    ensures AllReadable(maxLen, version, c, c'.log, |c.log|)
  {
    var sealing, c1, recs := PacketGoesOut(keys, maxLen, version, mtu, c, p);
    var taking;
    taking, c' := DatagramTaken(keys, maxLen, c1);
    SentIsTail(maxLen, version, c, Tag(c.queued, c.s.out, recs), c1.log);
    steps := sealing + taking;
    RunsJoin(keys, maxLen, c, sealing, c1, taking, c');
  }

  // The receiver takes up the last datagram.
  lemma {:induction false} DatagramTaken(keys: Keys, maxLen: nat, c: Sys) returns (steps: seq<Step>, c': Sys)
    requires KeysOk(keys) && Live(keys, c) && c.buf == [] && c.packets != []
    ensures Reaches(keys, maxLen, c, steps, c')
    ensures Live(keys, c') && c' == c.(buf := c'.buf, inbuf := c.packets[|c.packets| - 1])
  {
    var step := Take(|c.packets| - 1);
    OneStepRuns(keys, maxLen, c, step);
    StepKeepsGood(keys, maxLen, c, step);
    StepKeepsSealed(keys, maxLen, c, step);
    steps, c' := [step], Apply(keys, maxLen, c, step);
  }

  lemma {:induction false} TagsAreReadable(keys: Keys, maxLen: nat, version: nat, c: Sys, p: nat,
                                           recs: seq<S.Sealed>, q: S.Pos)
    requires Good(keys, c) && Awaits(c, p) && FlightInTurn(maxLen, c)
    requires F.Covers(S.Flight(c.s.out), S.At(c.s), recs, q)
    requires forall i :: 0 <= i < |recs| ==> Moderate(version, recs[i])
    ensures var sent := Tag(c.queued, c.s.out, recs);
            |sent| == |recs| && forall i :: 0 <= i < |sent| ==> Readable(maxLen, version, c, sent[i])
  {
    var sent := Tag(c.queued, c.s.out, recs);
    D.TagLength(c.queued, c.s.out, recs);
    forall i | 0 <= i < |sent|
      ensures Readable(maxLen, version, c, sent[i])
    {
      D.TagAt(c.queued, c.s.out, recs, i);
      var off := D.CoversAt(S.Flight(c.s.out), S.At(c.s), recs, q, i);
      CutIsReadable(keys, maxLen, version, c, p, off, sent[i]);
    }
  }

  // What a round of sending and reading leaves alone.
  ghost predicate SameTask(c: Sys, c': Sys) {
    && c'.queued == c.queued && c'.msgEpoch == c.msgEpoch && c'.s.out == c.s.out
    && c'.delivered == c.delivered && c'.current == c.current
    && c'.r.rEpoch == c.r.rEpoch && c'.r.readSeq == c.r.readSeq && c'.r.cipher == c.r.cipher
    && c'.r.hasMessage == c.r.hasMessage
  }

  lemma {:induction false} TaskGoesOn(maxLen: nat, c: Sys, p: nat, c': Sys)
    requires Awaits(c, p) && FlightInTurn(maxLen, c) && SameTask(c, c')
    ensures Awaits(c', p) && FlightInTurn(maxLen, c')
  {
    forall q | 0 <= q < |c'.s.out| && c'.s.out[q].epoch == c'.r.rEpoch
      ensures EntryInTurn(maxLen, c', q)
    {
      assert EntryInTurn(maxLen, c, q);
    }
  }

  lemma {:induction false} KeysFit(keys: Keys, version: nat, mtu: nat, c: Sys)
    requires KeysSeal(keys, version, mtu) && Good(keys, c)
    ensures VersionFits(c.r.cipher, version)
  {
    assert Seals(keys(c.r.rEpoch), version, mtu);
  }

  // The datagram that arrived is read.
  lemma {:induction false} ArrivedIsRead(keys: Keys, maxLen: nat, version: nat, c: Sys, p: nat, c1: Sys)
    returns (steps: seq<Step>, c': Sys)
    requires KeysOk(keys) && Live(keys, c1) && VersionFits(c.r.cipher, version) && |c.log| <= |c1.log|
    requires Awaits(c, p) && FlightInTurn(maxLen, c)
    requires c1 == c.(s := c1.s, log := c1.log, packets := c1.packets, buf := c1.buf, inbuf := c1.inbuf)
    requires c1.s.out == c.s.out && c1.inbuf == c1.log[|c.log|..] && AcceptedWithin(c1.r, c1.log, |c.log|)
    requires F.Covers(S.Flight(c.s.out), S.At(c.s), Records(c1.inbuf), S.At(c1.s))
    requires AllReadable(maxLen, version, c, c1.log, |c.log|)
    requires HasBefore(c.r, p, |c.queued[|c.delivered|].body|, S.At(c.s))
    ensures Reaches(keys, maxLen, c1, steps, c') && Live(keys, c') && SameTask(c, c') && c'.inbuf == []
    ensures c'.s == c1.s && Awaits(c', p) && FlightInTurn(maxLen, c')
    ensures HasBefore(c'.r, p, |c.queued[|c.delivered|].body|, S.At(c'.s))
  {
    forall i | |c.log| <= i < |c1.log|
      ensures Readable(maxLen, version, c1, c1.log[i])
    {
      assert Readable(maxLen, version, c, c1.log[i]);
    }
    assert AllReadable(maxLen, version, c1, c1.log, |c.log|);
    steps, c' := ReadsDatagram(keys, maxLen, version, c1, |c.log|, p, S.At(c.s), S.At(c1.s));
    TaskGoesOn(maxLen, c, p, c');
  }

  // One packet, from sealing to reading.
  lemma {:induction false} RoundRuns(keys: Keys, maxLen: nat, version: nat, mtu: nat, c: Sys, p: nat)
    returns (steps: seq<Step>, c': Sys)
    requires KeysOk(keys) && KeysSeal(keys, version, mtu)
    requires Going(keys, maxLen, version, mtu, c, p) && c.s.written < |c.s.out|
    requires HasBefore(c.r, p, |c.queued[|c.delivered|].body|, S.At(c.s))
    ensures Reaches(keys, maxLen, c, steps, c') && Going(keys, maxLen, version, mtu, c', p) && SameTask(c, c')
    ensures HasBefore(c'.r, p, |c.queued[|c.delivered|].body|, S.At(c'.s))
    ensures 0 <= Work(S.Flight(c.s.out), S.At(c'.s)) < Work(S.Flight(c.s.out), S.At(c.s))
  {
    var sending, c1 := PacketArrives(keys, maxLen, version, mtu, c, p);
    KeysFit(keys, version, mtu, c);
    var reading;
    reading, c' := ArrivedIsRead(keys, maxLen, version, c, p, c1);
    steps := sending + reading;
    RunsJoin(keys, maxLen, c, sending, c1, reading, c');
  }

  // The rest of the flight.
  lemma {:induction false} FlightRuns(keys: Keys, maxLen: nat, version: nat, mtu: nat, c: Sys, p: nat)
    returns (steps: seq<Step>, c': Sys)
    requires KeysOk(keys) && KeysSeal(keys, version, mtu) && Going(keys, maxLen, version, mtu, c, p)
    requires HasBefore(c.r, p, |c.queued[|c.delivered|].body|, S.At(c.s))
    ensures Reaches(keys, maxLen, c, steps, c') && Live(keys, c') && SameTask(c, c')
    ensures HasTo(c'.r, |c.queued[|c.delivered|].body|)
    decreases Work(S.Flight(c.s.out), S.At(c.s))
  {
    if c.s.written == |c.s.out| {
      steps, c' := [], c;
    } else {
      var round, c1 := RoundRuns(keys, maxLen, version, mtu, c, p);
      var more;
      more, c' := FlightRuns(keys, maxLen, version, mtu, c1, p);
      steps := round + more;
      RunsJoin(keys, maxLen, c, round, c1, more, c');
    }
  }

  // A message held to its end is handed out.
  lemma {:induction false} HeldIsHandedOut(keys: Keys, maxLen: nat, c: Sys) returns (c': Sys)
    requires KeysOk(keys) && Live(keys, c) && |c.delivered| < |c.queued|
    requires HasTo(c.r, |c.queued[|c.delivered|].body|)
    ensures Reaches(keys, maxLen, c, [Get], c') && Live(keys, c') && c'.queued == c.queued
    ensures c'.delivered == c.delivered && c'.current == Some(c.queued[|c.delivered|])
  {
    var i := c.r.readSeq % MAX_FLIGHT;
    var f := c.r.slots[i].value;
    assert R.SlotOk(c.r, i, f);
    assert SlotMatches(c.r, c.queued, |c.delivered|, c.log, c.via, f);
    assert f.bytes.Keys == Range(0, f.msgLen);
    OneStepRuns(keys, maxLen, c, Get);
    StepKeepsSealed(keys, maxLen, c, Get);
    GetKeepsGood(keys, maxLen, c);
    c' := Apply(keys, maxLen, c, Get);
  }

  // The run once the receiver is done with the message in its hand.
  ghost function DoneWith(keys: Keys, maxLen: nat, c: Sys): Sys {
    if c.current.Some? && Enabled(keys, c, Next) then Apply(keys, maxLen, c, Next) else c
  }

  // What it takes for entry p of the flight to come through: it is the message the receiver
  // waits for, of its read epoch; nothing else of that epoch in the flight, or still in the
  // datagram being read, is out of turn or too long; and the sender holds the keys of the
  // whole flight and has sequence numbers left for it.
  ghost predicate Deliverable(maxLen: nat, c: Sys, p: nat) {
    && c.alive && Awaits(c, p) && FlightInTurn(maxLen, c)
    && (forall i :: 0 <= i < |c.inbuf| ==> Harmless(maxLen, c, c.inbuf[i]))
    && AllLive(c.s.ws, c.s.out) && Left(c.s.ws, WorkFrom(S.Flight(c.s.out), 0))
  }

  lemma {:induction false} RewoundIsReady(keys: Keys, version: nat, mtu: nat, s: S.Sender, queued: seq<R.Message>,
                                          msgEpoch: seq<nat>)
    requires KeysSeal(keys, version, mtu) && SenderOk(keys, s, queued, msgEpoch)
    requires AllLive(s.ws, s.out) && Left(s.ws, WorkFrom(S.Flight(s.out), 0))
    ensures Ready(S.Rewind(s), version, mtu)
  {
    assert Seals(keys(s.ws.epoch), version, mtu);
    if s.ws.epoch >= 1 {
      assert Seals(keys(s.ws.epoch - 1), version, mtu);
    }
  }

  lemma {:induction false} FlightRewinds(keys: Keys, maxLen: nat, version: nat, mtu: nat, c: Sys, p: nat)
    returns (c': Sys)
    requires KeysOk(keys) && KeysSeal(keys, version, mtu) && Live(keys, c) && Deliverable(maxLen, c, p) && c.inbuf == []
    ensures Reaches(keys, maxLen, c, [Retransmit], c') && c' == c.(s := S.Rewind(c.s))
    ensures Going(keys, maxLen, version, mtu, c', p)
    ensures HasBefore(c'.r, p, |c.queued[|c.delivered|].body|, S.At(c'.s))
  {
    c' := Apply(keys, maxLen, c, Retransmit);
    OneStepRuns(keys, maxLen, c, Retransmit);
    StepKeepsGood(keys, maxLen, c, Retransmit);
    StepKeepsSealed(keys, maxLen, c, Retransmit);
    RewoundIsReady(keys, version, mtu, c.s, c.queued, c.msgEpoch);
    TaskGoesOn(maxLen, c, p, c');
  }

  lemma {:induction false} AwaitedIsDelivered(keys: Keys, maxLen: nat, version: nat, mtu: nat, c: Sys, p: nat)
    returns (steps: seq<Step>, c': Sys)
    requires KeysOk(keys) && KeysSeal(keys, version, mtu) && Live(keys, c) && Deliverable(maxLen, c, p)
    requires c.inbuf == []
    ensures Reaches(keys, maxLen, c, steps, c') && c'.alive && c'.queued == c.queued
    ensures c'.delivered == c.delivered && c'.current == Some(c.queued[|c.delivered|])
  {
    var c1 := FlightRewinds(keys, maxLen, version, mtu, c, p);
    var sending, c2 := FlightRuns(keys, maxLen, version, mtu, c1, p);
    c' := HeldIsHandedOut(keys, maxLen, c2);
    RunsJoin(keys, maxLen, c, [Retransmit], c1, sending, c2);
    RunsJoin(keys, maxLen, c, [Retransmit] + sending, c2, [Get], c');
    steps := [Retransmit] + sending + [Get];
  }

  lemma {:induction false} DrainedIsDeliverable(maxLen: nat, c: Sys, p: nat, c': Sys)
    requires Deliverable(maxLen, c, p) && Reads(c, c') && c'.inbuf == []
    ensures Deliverable(maxLen, c', p)
  {
    TaskGoesOn(maxLen, c, p, c');
  }

  // From a good state: whatever is left of a datagram is read, the flight is sent once more
  // and read, and the message is handed out.
  lemma {:induction false} NextIsDelivered(keys: Keys, maxLen: nat, version: nat, mtu: nat, c: Sys, p: nat)
    returns (steps: seq<Step>, c': Sys)
    requires KeysOk(keys) && KeysSeal(keys, version, mtu) && Good(keys, c) && Sealed(c)
    requires Deliverable(maxLen, DoneWith(keys, maxLen, c), p)
    ensures Reaches(keys, maxLen, c, steps, c') && c'.alive
    ensures |Handed(c)| < |c.queued| && Handed(c') == Handed(c) + [c.queued[|Handed(c)|]]
  {
    var done, c0 := DoneWithRuns(keys, maxLen, c);
    var reading, c1 := Drains(keys, maxLen, c0);
    DrainedIsDeliverable(maxLen, c0, p, c1);
    var sending;
    sending, c' := AwaitedIsDelivered(keys, maxLen, version, mtu, c1, p);
    RunsJoin(keys, maxLen, c, done, c0, reading, c1);
    RunsJoin(keys, maxLen, c, done + reading, c1, sending, c');
    steps := done + reading + sending;
  }

  lemma {:induction false} DoneWithRuns(keys: Keys, maxLen: nat, c: Sys) returns (steps: seq<Step>, c': Sys)
    requires KeysOk(keys) && Good(keys, c) && Sealed(c) && DoneWith(keys, maxLen, c).alive
    ensures c' == DoneWith(keys, maxLen, c) && Reaches(keys, maxLen, c, steps, c') && Live(keys, c')
    ensures Handed(c') == Handed(c) && c'.current == None && c'.queued == c.queued
  {
    c' := DoneWith(keys, maxLen, c);
    if c.current.Some? {
      steps := [Next];
      OneStepRuns(keys, maxLen, c, Next);
      StepKeepsSealed(keys, maxLen, c, Next);
      NextKeepsGood(keys, maxLen, c);
    } else {
      steps := [];
    }
  }

  // Progress. From every reachable state the message the receiver waits for can be delivered.
  lemma {:induction false} DeliveryGoesOn(keys: Keys, maxLen: nat, version: nat, mtu: nat, before: seq<Step>, c: Sys,
                                          p: nat) returns (steps: seq<Step>, c': Sys)
    requires KeysSeal(keys, version, mtu) && Reaches(keys, maxLen, Init(keys), before, c)
    requires Deliverable(maxLen, DoneWith(keys, maxLen, c), p)
    ensures Reaches(keys, maxLen, c, steps, c') && c'.alive
    ensures |Handed(c)| < |c.queued| && Handed(c') == Handed(c) + [c.queued[|Handed(c)|]]
  {
    SealingKeysAreSound(keys, version, mtu);
    InitGood(keys);
    RunKeepsSealed(keys, maxLen, Init(keys), before, c);
    steps, c' := NextIsDelivered(keys, maxLen, version, mtu, c, p);
  }

  // So the first message of a connection, of any length the receiver takes, is delivered.
  lemma {:induction false} FirstIsDelivered(keys: Keys, maxLen: nat, version: nat, mtu: nat, typ: nat, body: seq<Byte>)
    returns (steps: seq<Step>, c: Sys)
    requires KeysSeal(keys, version, mtu) && typ < 0x100 && |body| <= maxLen && |body| < 0x100_0000
    ensures Reaches(keys, maxLen, Init(keys), [Queue(typ, body)] + steps, c) && c.alive
    ensures Handed(c) == [R.Message(typ, body)]
  {
    var c1 := Apply(keys, maxLen, Init(keys), Queue(typ, body));
    SealingKeysAreSound(keys, version, mtu);
    OneStepRuns(keys, maxLen, Init(keys), Queue(typ, body));
    FirstIsDeliverable(keys, maxLen, typ, body);
    steps, c := DeliveryGoesOn(keys, maxLen, version, mtu, [Queue(typ, body)], c1, 0);
    RunsJoin(keys, maxLen, Init(keys), [Queue(typ, body)], c1, steps, c);
  }

  lemma {:induction false} FirstIsDeliverable(keys: Keys, maxLen: nat, typ: nat, body: seq<Byte>)
    requires typ < 0x100 && |body| <= maxLen && |body| < 0x100_0000
    ensures Enabled(keys, Init(keys), Queue(typ, body))
    ensures var c := Apply(keys, maxLen, Init(keys), Queue(typ, body));
            && Deliverable(maxLen, c, 0) && DoneWith(keys, maxLen, c) == c
            && c.queued == [R.Message(typ, body)] && Handed(c) == []
  {
    var c := Apply(keys, maxLen, Init(keys), Queue(typ, body));
    S.QueuedIfRoom(Init(keys).s, typ, body);
    assert c.queued == [R.Message(typ, body)];
  }

  lemma SealingKeysAreSound(keys: Keys, version: nat, mtu: nat)
    requires KeysSeal(keys, version, mtu)
    ensures KeysOk(keys)
  {
    forall e: nat
      ensures keys(e).Sound()
    {
      assert Seals(keys(e), version, mtu);
    }
  }
}
