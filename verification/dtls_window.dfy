// Why 16-bit message numbers are safe: the replay window rejects every record of a
// message far enough behind, so a number in the receive window means one message only.

module DtlsWindow {
  import opened Wire
  import opened ReplayWindow
  import opened DtlsTransport
  import R = DtlsReceiver

  lemma OrderedAt(log: seq<Sent>, i: nat, j: nat)
    requires forall i, j :: 0 <= i < j < |log| ==> Ordered(log[i], log[j])
    requires i < |log| && j < |log|
    ensures i < j ==> Ordered(log[i], log[j])
  {
  }

  // Of two handshake records a flight or more apart in message order and of one epoch,
  // the later message's has the larger sequence number.
  lemma {:induction false} LaterMessageLaterRecord(log: seq<Sent>, a: Sent, b: Sent)
    requires forall i, j :: 0 <= i < j < |log| ==> Ordered(log[i], log[j])
    requires a in log && b in log && a.x.rec.typ == b.x.rec.typ == RT_HANDSHAKE
    requires a.x.rec.epoch == b.x.rec.epoch && a.idx + MAX_FLIGHT <= b.idx
    ensures a.x.rec.seqNum < b.x.rec.seqNum
  {
    var i :| 0 <= i < |log| && log[i] == a;
    var j :| 0 <= j < |log| && log[j] == b;
    OrderedAt(log, i, j);
    OrderedAt(log, j, i);
  }

  // What the run knows of a logged record.
  lemma {:induction false} LoggedRecordOk(keys: Keys, c: Sys, e: Sent)
    requires Good(keys, c) && e in c.log
    ensures RecordOk(keys, c.queued, c.msgEpoch, e)
  {
    var i :| 0 <= i < |c.log| && c.log[i] == e;
    assert RecordOk(keys, c.queued, c.msgEpoch, c.log[i]);
  }

  // The record accepted for message k.
  ghost predicate AcceptedFor(c: Sys, k: nat) {
    && k in c.via && c.via[k] in c.log && c.via[k].idx == k
    && c.via[k].x.rec.typ == RT_HANDSHAKE && c.via[k].x.rec.epoch == c.r.rEpoch
    && Sequence64(c.r.rEpoch, c.via[k].x.rec.seqNum) in c.r.accepted
  }

  // Messages delivered after one of this epoch are of this epoch too.
  lemma {:induction false} LaterIsAccepted(keys: Keys, c: Sys, e: Sent, k: nat)
    requires Good(keys, c) && e in c.log && e.x.rec.typ == RT_HANDSHAKE && e.x.rec.epoch == c.r.rEpoch
    requires e.idx <= k < |c.delivered|
    ensures AcceptedFor(c, k)
  {
    assert ViaOk(c.r, c.log, c.via, k);
    LoggedRecordOk(keys, c, c.via[k]);
    LoggedRecordOk(keys, c, e);
  }

  // The record accepted for the message n flights later lies at least n numbers ahead.
  lemma {:induction false} AcceptedAhead(keys: Keys, c: Sys, e: Sent, n: nat)
    requires Good(keys, c) && e in c.log && e.x.rec.typ == RT_HANDSHAKE && e.x.rec.epoch == c.r.rEpoch
    requires n > 0 && e.idx + MAX_FLIGHT * n < |c.delivered|
    ensures var k := e.idx + MAX_FLIGHT * n;
            AcceptedFor(c, k) && c.via[k].x.rec.seqNum >= e.x.rec.seqNum + n
    decreases n
  {
    var k := e.idx + MAX_FLIGHT * n;
    LaterIsAccepted(keys, c, e, k);
    if n == 1 {
      LaterMessageLaterRecord(c.log, e, c.via[k]);
    } else {
      AcceptedAhead(keys, c, e, n - 1);
      LaterMessageLaterRecord(c.log, c.via[k - MAX_FLIGHT], c.via[k]);
    }
  }

  lemma {:induction false} OldMessageIsStale(keys: Keys, c: Sys, e: Sent)
    requires Good(keys, c) && e in c.log && e.x.rec.typ == RT_HANDSHAKE && e.x.rec.epoch == c.r.rEpoch
    requires e.idx + MAX_FLIGHT * WINDOW_SIZE < |c.delivered|
    ensures Rejects(c.r.accepted, Sequence64(e.x.rec.epoch, e.x.rec.seqNum))
  {
    AcceptedAhead(keys, c, e, WINDOW_SIZE);
  }

  // A record the replay window lets through, with a number in the receive window,
  // carries the message that number stands for now.
  lemma {:induction false} NumberNamesMessage(keys: Keys, c: Sys, e: Sent)
    requires Good(keys, c) && e in c.log && e.x.rec.typ == RT_HANDSHAKE && e.x.rec.epoch == c.r.rEpoch
    requires !Rejects(c.r.accepted, Sequence64(e.x.rec.epoch, e.x.rec.seqNum))
    requires c.r.readSeq <= e.idx % SEQ_LIMIT < c.r.readSeq + MAX_FLIGHT
    ensures e.idx == |c.delivered| + e.idx % SEQ_LIMIT - c.r.readSeq
  {
    LoggedRecordOk(keys, c, e);
    if e.idx + MAX_FLIGHT * WINDOW_SIZE < |c.delivered| {
      OldMessageIsStale(keys, c, e);
    }
    OneInWindow(e.idx, |c.delivered|);
  }

  // Near the window a 16-bit number stands for one message.
  lemma OneInWindow(k: nat, d: nat)
    requires k < d + SEQ_LIMIT && d <= k + MAX_FLIGHT * WINDOW_SIZE
    requires d % SEQ_LIMIT <= k % SEQ_LIMIT < d % SEQ_LIMIT + MAX_FLIGHT
    ensures k == d + k % SEQ_LIMIT - d % SEQ_LIMIT
  {
  }
}
