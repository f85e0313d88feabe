// The promises of the DTLS handshake transport over whole runs.

module DtlsDelivery {
  import opened Wire
  import opened Reassembly
  import opened DtlsTransport
  import opened DtlsSendSteps
  import opened DtlsReceiveSteps
  import R = DtlsReceiver
  import S = DtlsSender

  ghost predicate Reaches(keys: Keys, maxLen: nat, c: Sys, steps: seq<Step>, c': Sys)
    decreases |steps|
  {
    if steps == [] then c == c'
    else Enabled(keys, c, steps[0]) && Reaches(keys, maxLen, Apply(keys, maxLen, c, steps[0]), steps[1..], c')
  }

  lemma {:induction false} InitGood(keys: Keys)
    requires KeysOk(keys)
    ensures Good(keys, Init(keys))
  {
  }

  // Steps that touch neither the log nor the receiver's state.
  lemma {:induction false} RewindKeepsGood(keys: Keys, maxLen: nat, c: Sys, step: Step)
    requires Good(keys, c) && Enabled(keys, c, step) && (step.Flush? || step.Retransmit?)
    ensures Good(keys, Apply(keys, maxLen, c, step))
  {
    SenderReplaced(keys, c, Apply(keys, maxLen, c, step));
  }

  lemma {:induction false} TakeKeepsGood(keys: Keys, maxLen: nat, c: Sys, i: nat)
    requires Good(keys, c) && Enabled(keys, c, Take(i))
    ensures Good(keys, Apply(keys, maxLen, c, Take(i)))
  {
  }

  lemma {:induction false} QueueCcsKeepsGood(keys: Keys, maxLen: nat, c: Sys)
    requires Good(keys, c) && Enabled(keys, c, QueueCcs)
    ensures Good(keys, Apply(keys, maxLen, c, QueueCcs))
  {
    QueueCcsKeepsSender(keys, c.s, c.queued, c.msgEpoch);
    SenderReplaced(keys, c, Apply(keys, maxLen, c, QueueCcs));
  }

  lemma {:induction false} StepKeepsGood(keys: Keys, maxLen: nat, c: Sys, step: Step)
    requires KeysOk(keys) && Good(keys, c) && Enabled(keys, c, step)
    ensures Good(keys, Apply(keys, maxLen, c, step))
  {
    match step
    case Queue(typ, body) => QueueKeepsGood(keys, maxLen, c, typ, body);
    case QueueCcs => QueueCcsKeepsGood(keys, maxLen, c);
    case Flush => RewindKeepsGood(keys, maxLen, c, step);
    case Packet(mtu, accepted) => PacketKeepsGood(keys, maxLen, c, mtu, accepted);
    case Retransmit => RewindKeepsGood(keys, maxLen, c, step);
    case ChangeWrite => ChangeWriteKeepsGood(keys, maxLen, c);
    case Take(i) => TakeKeepsGood(keys, maxLen, c, i);
    case Open => OpenKeepsGood(keys, maxLen, c);
    case OpenCcs => OpenCcsKeepsGood(keys, maxLen, c);
    case Get => GetKeepsGood(keys, maxLen, c);
    case Next => NextKeepsGood(keys, maxLen, c);
    case ChangeRead => ChangeReadKeepsGood(keys, maxLen, c);
  }

  lemma {:induction false} RunKeepsGood(keys: Keys, maxLen: nat, c: Sys, steps: seq<Step>, c': Sys)
    requires KeysOk(keys) && Good(keys, c) && Reaches(keys, maxLen, c, steps, c')
    ensures Good(keys, c')
    decreases |steps|
  {
    if steps != [] {
      StepKeepsGood(keys, maxLen, c, steps[0]);
      RunKeepsGood(keys, maxLen, Apply(keys, maxLen, c, steps[0]), steps[1..], c');
    }
  }

  // End-to-end delivery. Whatever the network drops, repeats or reorders, at whatever
  // packet sizes and after any number of retransmissions and cipher changes, the
  // messages handed out are the first ones queued, in order and byte for byte.
  lemma {:induction false} EndToEndDelivery(keys: Keys, maxLen: nat, steps: seq<Step>, c: Sys)
    requires KeysOk(keys) && Reaches(keys, maxLen, Init(keys), steps, c)
    ensures Handed(c) <= c.queued
  {
    InitGood(keys);
    RunKeepsGood(keys, maxLen, Init(keys), steps, c);
  }

  // No two records of a run are sealed under the same epoch and sequence number.
  lemma {:induction false} NoSequenceReuse(keys: Keys, maxLen: nat, steps: seq<Step>, c: Sys, i: nat, j: nat)
    requires KeysOk(keys) && Reaches(keys, maxLen, Init(keys), steps, c)
    requires i < j < |c.log|
    ensures Sequence64(c.log[i].x.rec.epoch, c.log[i].x.rec.seqNum)
            != Sequence64(c.log[j].x.rec.epoch, c.log[j].x.rec.seqNum)
  {
    InitGood(keys);
    RunKeepsGood(keys, maxLen, Init(keys), steps, c);
    assert Ordered(c.log[i], c.log[j]);
    assert RecordOk(keys, c.queued, c.msgEpoch, c.log[i]) && RecordOk(keys, c.queued, c.msgEpoch, c.log[j]);
  }

  // In every reachable state a held message sits in the slot of its number, inside the
  // window, and was assembled from the records of one epoch; unfinished ones are of the
  // current epoch.
  lemma {:induction false} SingleEpochAssembly(keys: Keys, maxLen: nat, steps: seq<Step>, c: Sys, i: nat)
    requires KeysOk(keys) && Reaches(keys, maxLen, Init(keys), steps, c)
    requires i < MAX_FLIGHT
    ensures |c.r.slots| == MAX_FLIGHT
    ensures c.r.slots[i].Some? ==>
              var f := c.r.slots[i].value;
              && f.seqNum % MAX_FLIGHT == i && c.r.readSeq <= f.seqNum < c.r.readSeq + MAX_FLIGHT
              && (exists e :: f.epochs == {e}) && (f.Complete() || f.epochs == {c.r.rEpoch})
  {
    InitGood(keys);
    RunKeepsGood(keys, maxLen, Init(keys), steps, c);
    if c.r.slots[i].Some? {
      assert R.SlotOk(c.r, i, c.r.slots[i].value);
    }
  }
}
