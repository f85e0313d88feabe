// What becomes of fragments and records from a peer that may send anything: which ones are taken,
// what a refused one leaves, and that whatever is handed out came in.

module DtlsAnyPeer {
  import opened Wire
  import opened Reassembly
  import opened ReplayWindow
  import opened Ciphers
  import opened DtlsReceiver
  import opened DtlsAssembly
  import opened DtlsOpening

  ghost predicate Parsed(frag: Fragment) {
    frag.header.Fits() && frag.header.fragLen == |frag.body|
  }

  predicate InWindow(r: Receiver, s: nat) {
    r.readSeq <= s < r.readSeq + 7
  }

  // No other message is held under the fragment's number.
  ghost predicate Agrees(r: Receiver, h: HmHeader)
    requires |r.slots| == MAX_FLIGHT
  {
    var slot := r.slots[h.seqNum % 7];
    slot.Some? ==> slot.value.typ == h.typ && slot.value.msgLen == h.msgLen
  }

  // A fragment is taken just when it is within its message and the message within the limit, it is
  // the one waited for if the cipher is just on, it is not exactly seven ahead, and it does not
  // contradict what is held. A refused one, and one outside the window, leaves the ring as it was.
  lemma {:induction false} FragmentIsTaken(r: Receiver, frag: Fragment, maxLen: nat)
    requires Inv(r) && Parsed(frag)
    ensures var (r', alert) := ReceiveFragment(r, frag, maxLen);
            var h := frag.header;
            && (alert.None? <==>
                  && h.fragOff + h.fragLen <= h.msgLen <= maxLen
                  && (r.rEpoch == 1 ==> h.seqNum == r.readSeq)
                  && h.seqNum != r.readSeq + 7
                  && (InWindow(r, h.seqNum) ==> Agrees(r, h)))
            && (alert.Some? || !InWindow(r, h.seqNum) ==> r' == r)
            && (alert.Some? ==>
                  alert.value == if h.fragOff + h.fragLen > h.msgLen || h.msgLen > maxLen then IllegalParameter
                                 else if r.rEpoch == 1 && h.seqNum != r.readSeq then UnexpectedMessage
                                 else if h.seqNum == r.readSeq + 7 then InternalError else IllegalParameter)
  {
  }

  // One that is taken leaves a message with its header, and adds its bytes to what is held unless
  // the message is complete. Nothing else changes.
  lemma {:induction false} TakenIsStored(r: Receiver, frag: Fragment, maxLen: nat)
    requires Inv(r) && Parsed(frag) && InWindow(r, frag.header.seqNum)
    requires ReceiveFragment(r, frag, maxLen).1 == None
    ensures var r', h, was := ReceiveFragment(r, frag, maxLen).0, frag.header, r.slots[frag.header.seqNum % 7];
            && r' == r.(slots := r'.slots) && |r'.slots| == 7 && r'.slots[h.seqNum % 7].Some?
            && (forall i :: 0 <= i < 7 && i != h.seqNum % 7 ==> r'.slots[i] == r.slots[i])
            && var f := r'.slots[h.seqNum % 7].value;
               && f.typ == h.typ && f.seqNum == h.seqNum && f.msgLen == h.msgLen
               && f.bytes.Keys == Held(r, h.seqNum) + Range(h.fragOff, h.fragOff + |frag.body|)
               && forall j :: j in f.bytes ==>
                    if h.fragOff <= j < h.fragOff + |frag.body| && !(was.Some? && was.value.Complete())
                    then f.bytes[j] == frag.body[j - h.fragOff]
                    else was.Some? && j in was.value.bytes && f.bytes[j] == was.value.bytes[j]
  {
    var h := frag.header;
    if r.slots[h.seqNum % 7].Some? {
      SlotHoldsOneMessage(r, h);
    }
    WithinMessage(h, frag);
  }

  // A run of fragments without an alert.
  ghost predicate AllTaken(r: Receiver, frags: seq<Fragment>, maxLen: nat)
    decreases |frags|
  {
    && |r.slots| == MAX_FLIGHT
    && (frags == [] ||
        (Parsed(frags[0]) && ReceiveFragment(r, frags[0], maxLen).1 == None
         && AllTaken(ReceiveFragment(r, frags[0], maxLen).0, frags[1..], maxLen)))
  }

  // The fragment is of message s, with its type and length.
  predicate Of(frag: Fragment, s: nat, typ: nat, msgLen: nat) {
    frag.header.seqNum == s && frag.header.typ == typ && frag.header.msgLen == msgLen
  }

  // It has this byte of its message.
  predicate Has(frag: Fragment, j: nat, x: Byte) {
    frag.header.fragOff <= j < frag.header.fragOff + |frag.body| && frag.body[j - frag.header.fragOff] == x
  }

  // A message held came in fragments of it, and each byte of it in one of them.
  ghost predicate Sourced(f: Frag, frags: seq<Fragment>) {
    && (exists k :: 0 <= k < |frags| && Of(frags[k], f.seqNum, f.typ, f.msgLen))
    && forall j :: j in f.bytes ==>
         exists k :: 0 <= k < |frags| && Of(frags[k], f.seqNum, f.typ, f.msgLen) && Has(frags[k], j, f.bytes[j])
  }

  ghost predicate AllSourced(r: Receiver, frags: seq<Fragment>) {
    forall i :: 0 <= i < |r.slots| && r.slots[i].Some? ==> Sourced(r.slots[i].value, frags)
  }

  lemma {:induction false} SourcedGrows(f: Frag, frags: seq<Fragment>, frag: Fragment)
    requires Sourced(f, frags)
    ensures Sourced(f, frags + [frag])
  {
    var k :| 0 <= k < |frags| && Of(frags[k], f.seqNum, f.typ, f.msgLen);
    assert (frags + [frag])[k] == frags[k];
    forall j | j in f.bytes
      ensures exists k :: 0 <= k < |frags + [frag]| && Of((frags + [frag])[k], f.seqNum, f.typ, f.msgLen)
                          && Has((frags + [frag])[k], j, f.bytes[j])
    {
      var k :| 0 <= k < |frags| && Of(frags[k], f.seqNum, f.typ, f.msgLen) && Has(frags[k], j, f.bytes[j]);
      assert (frags + [frag])[k] == frags[k];
    }
  }

  // A piece more of a message, or the first one.
  lemma {:induction false} PieceIsSourced(was: Option<Frag>, f: Frag, frags: seq<Fragment>, frag: Fragment)
    requires was.Some? ==> Sourced(was.value, frags) && Of(frag, was.value.seqNum, was.value.typ, was.value.msgLen)
    requires Of(frag, f.seqNum, f.typ, f.msgLen)
    requires forall j :: j in f.bytes ==>
               Has(frag, j, f.bytes[j]) || (was.Some? && j in was.value.bytes && f.bytes[j] == was.value.bytes[j])
    ensures Sourced(f, frags + [frag])
  {
    var all := frags + [frag];
    assert all[|frags|] == frag;
    if was.Some? {
      SourcedGrows(was.value, frags, frag);
    }
    forall j | j in f.bytes
      ensures exists k :: 0 <= k < |all| && Of(all[k], f.seqNum, f.typ, f.msgLen) && Has(all[k], j, f.bytes[j])
    {
      if Has(frag, j, f.bytes[j]) {
        assert Has(all[|frags|], j, f.bytes[j]);
      }
    }
  }

  lemma {:induction false} TakenIsSourced(r: Receiver, frags: seq<Fragment>, frag: Fragment, maxLen: nat)
    requires Inv(r) && Parsed(frag) && InWindow(r, frag.header.seqNum)
    requires ReceiveFragment(r, frag, maxLen).1 == None && AllSourced(r, frags)
    ensures var r', i := ReceiveFragment(r, frag, maxLen).0, frag.header.seqNum % 7;
            |r'.slots| == 7 && r'.slots[i].Some? && Sourced(r'.slots[i].value, frags + [frag])
  {
    var i := frag.header.seqNum % 7;
    TakenIsStored(r, frag, maxLen);
    FragmentIsTaken(r, frag, maxLen);
    if r.slots[i].Some? {
      SlotHoldsOneMessage(r, frag.header);
    }
    PieceIsSourced(r.slots[i], ReceiveFragment(r, frag, maxLen).0.slots[i].value, frags, frag);
  }

  lemma {:induction false} RunIsSourced(r: Receiver, before: seq<Fragment>, frags: seq<Fragment>, maxLen: nat)
    requires Inv(r) && AllSourced(r, before) && AllTaken(r, frags, maxLen)
    ensures Inv(ReceiveAll(r, frags, maxLen)) && ReceiveAll(r, frags, maxLen).readSeq == r.readSeq
    ensures AllSourced(ReceiveAll(r, frags, maxLen), before + frags)
    decreases |frags|
  {
    if frags == [] {
      assert before + frags == before;
    } else {
      var frag, r' := frags[0], ReceiveFragment(r, frags[0], maxLen).0;
      ReceiveFragmentKeepsInv(r, frag, maxLen);
      FragmentIsTaken(r, frag, maxLen);
      if InWindow(r, frag.header.seqNum) {
        TakenIsStored(r, frag, maxLen);
        TakenIsSourced(r, before, frag, maxLen);
      }
      forall i | 0 <= i < |r'.slots| && r'.slots[i].Some?
        ensures Sourced(r'.slots[i].value, before + [frag])
      {
        if r'.slots[i] == r.slots[i] {
          SourcedGrows(r.slots[i].value, before, frag);
        }
      }
      RunIsSourced(r', before + [frag], frags[1..], maxLen);
      assert before + [frag] + frags[1..] == before + frags;
    }
  }

  // Whatever a peer sends: a message that is handed out is one whose every byte came in a fragment
  // of the number waited for, with the message's type and length.
  lemma {:induction false} DeliveredHasArrived(r: Receiver, frags: seq<Fragment>, maxLen: nat)
    requires Inv(r) && (forall i :: 0 <= i < MAX_FLIGHT ==> r.slots[i].None?) && AllTaken(r, frags, maxLen)
    ensures var r' := ReceiveAll(r, frags, maxLen);
            |r'.slots| == MAX_FLIGHT && (GetMessage(r').1.Some? ==>
              var m := GetMessage(r').1.value;
              && (exists k :: 0 <= k < |frags| && Of(frags[k], r.readSeq, m.typ, |m.body|))
              && forall j :: 0 <= j < |m.body| ==>
                   exists k :: 0 <= k < |frags| && Of(frags[k], r.readSeq, m.typ, |m.body|)
                               && Has(frags[k], j, m.body[j]))
  {
    RunIsSourced(r, [], frags, maxLen);
    assert [] + frags == frags;
    var r' := ReceiveAll(r, frags, maxLen);
    if GetMessage(r').1.Some? {
      var f := r'.slots[r.readSeq % MAX_FLIGHT].value;
      assert SlotOk(r', r.readSeq % MAX_FLIGHT, f) && Sourced(f, frags);
      BodyIsHeld(f, frags);
    }
  }

  lemma {:induction false} BodyIsHeld(f: Frag, frags: seq<Fragment>)
    requires f.Complete() && Sourced(f, frags)
    ensures forall j :: 0 <= j < f.msgLen ==>
              exists k :: 0 <= k < |frags| && Of(frags[k], f.seqNum, f.typ, f.msgLen) && Has(frags[k], j, f.Body()[j])
  {
    forall j | 0 <= j < f.msgLen
      ensures exists k :: 0 <= k < |frags| && Of(frags[k], f.seqNum, f.typ, f.msgLen) && Has(frags[k], j, f.Body()[j])
    {
      assert Between(j, 0, f.msgLen) && j in f.bytes;
    }
  }

  lemma {:induction false} RunFront(frags: seq<Fragment>, tail: seq<Byte>)
    requires frags != [] && Parsed(frags[0])
    ensures var b := RunBytes(frags) + tail;
            && ParseFragment(b) == Some(frags[0]) && |b| >= HM_HEADER_LENGTH + |frags[0].body|
            && b[HM_HEADER_LENGTH + |frags[0].body|..] == RunBytes(frags[1..]) + tail
  {
    var h, body, rest := frags[0].header, frags[0].body, RunBytes(frags[1..]) + tail;
    ParseFragmentInverts(h, body, rest);
    assert RunBytes(frags) + tail == HeaderBytes(h) + body + rest;
  }

  // A run of fragments in a record goes as far as the first one that is refused, and a piece of a
  // fragment behind them is an error.
  lemma {:induction false} RunGoesOn(r: Receiver, frags: seq<Fragment>, tail: seq<Byte>, maxLen: nat)
    requires AllTaken(r, frags, maxLen)
    ensures |ReceiveAll(r, frags, maxLen).slots| == MAX_FLIGHT
    ensures ReceiveFragments(r, RunBytes(frags) + tail, maxLen)
            == ReceiveFragments(ReceiveAll(r, frags, maxLen), tail, maxLen)
    decreases |frags|
  {
    if frags == [] {
      assert RunBytes(frags) + tail == tail;
    } else {
      RunFront(frags, tail);
      RunGoesOn(ReceiveFragment(r, frags[0], maxLen).0, frags[1..], tail, maxLen);
    }
  }

  lemma FirstStops(r: Receiver, bad: Fragment, b: seq<Byte>, maxLen: nat)
    requires |r.slots| == MAX_FLIGHT && b != [] && ParseFragment(b) == Some(bad)
    requires ReceiveFragment(r, bad, maxLen).1.Some?
    ensures ReceiveFragments(r, b, maxLen) == ReceiveFragment(r, bad, maxLen)
  {
  }

  lemma {:induction false} RunStops(r: Receiver, frags: seq<Fragment>, bad: Fragment, tail: seq<Byte>, maxLen: nat)
    requires AllTaken(r, frags, maxLen) && Parsed(bad)
    requires |ReceiveAll(r, frags, maxLen).slots| == MAX_FLIGHT
    requires ReceiveFragment(ReceiveAll(r, frags, maxLen), bad, maxLen).1.Some?
    ensures ReceiveFragments(r, RunBytes(frags) + (HeaderBytes(bad.header) + bad.body + tail), maxLen)
            == ReceiveFragment(ReceiveAll(r, frags, maxLen), bad, maxLen)
  {
    var b := HeaderBytes(bad.header) + bad.body + tail;
    RunGoesOn(r, frags, b, maxLen);
    ParseFragmentInverts(bad.header, bad.body, tail);
    FirstStops(ReceiveAll(r, frags, maxLen), bad, b, maxLen);
  }

  lemma {:induction false} TornRunIsError(r: Receiver, frags: seq<Fragment>, frag: Fragment, cut: nat, maxLen: nat)
    requires AllTaken(r, frags, maxLen) && Parsed(frag) && 0 < cut < 12 + |frag.body|
    ensures ReceiveFragments(r, RunBytes(frags) + (HeaderBytes(frag.header) + frag.body)[..cut], maxLen)
            == (ReceiveAll(r, frags, maxLen), Some(DecodeError))
  {
    var whole := HeaderBytes(frag.header) + frag.body;
    RunGoesOn(r, frags, whole[..cut], maxLen);
    if cut >= HM_HEADER_LENGTH {
      var f := frag.header.Fields();
      SerializedLength(f);
      HmWidths(frag.header);
      assert whole[..cut][0..0 + HM_HEADER_LENGTH] == Serialize(f);
      Limits();
      FieldInverts(f, 4, whole[..cut], 0);
    }
  }

  // A new read cipher is taken on just when no ChangeCipherSpec waits and no message but the one
  // that was handed out is held. From then on records of the next epoch count, and none of their
  // numbers has been seen.
  lemma {:induction false} CipherChangesIfDrained(r: Receiver, cipher: Cipher)
    requires Inv(r)
    ensures var (r', ok) := SetReadState(r, cipher);
            && (ok <==> && !r.hasCcs
                        && forall s :: InWindow(r, s) && r.slots[s % 7].Some? ==> s == r.readSeq && r.hasMessage)
            && (ok ==> r' == r.(rEpoch := (r.rEpoch + 1) % 0x1_0000, accepted := r'.accepted, cipher := cipher))
            && (!ok ==> r' == r)
            && (ok ==> forall n :: !Rejects(r'.accepted, n))
  {
    var (r', ok) := SetReadState(r, cipher);
    if !ok && !r.hasCcs {
      var i :| 0 <= i < MAX_FLIGHT && !(r.hasMessage && i == r.readSeq % MAX_FLIGHT) && r.slots[i].Some?;
      assert SlotOk(r, i, r.slots[i].value);
      assert InWindow(r, r.slots[i].value.seqNum);
    } else if ok {
      forall s | InWindow(r, s) && r.slots[s % 7].Some?
        ensures s == r.readSeq && r.hasMessage
      {
        assert 0 <= s % 7 < MAX_FLIGHT;
      }
    }
  }

  // A ChangeCipherSpec that came before is taken without looking at the bytes, once.
  lemma FlaggedCcsIsTaken(r: Receiver, b: seq<Byte>, maxLen: nat)
    requires |r.slots| == MAX_FLIGHT && r.hasCcs
    ensures OpenChangeCipherSpec(r, b, maxLen) == (r.(hasCcs := false), Success, 0)
  {
  }

  // Otherwise just a record with one is, before the first cipher change; any other goes to
  // dtls1_open_handshake, and what that takes is no ChangeCipherSpec.
  lemma {:induction false} CcsIsTaken(r: Receiver, b: seq<Byte>, maxLen: nat)
    requires |r.slots| == MAX_FLIGHT && !r.hasCcs
    ensures var (r', status, used) := OpenChangeCipherSpec(r, b, maxLen);
            var (r1, status1, used1) := OpenHandshake(r, b, maxLen);
            && (status == Success <==> exists rec :: CcsInFront(r, b, rec))
            && !r'.hasCcs && used == used1
            && (status == Success ==> r' == r.(accepted := r'.accepted) && used > 0)
            && (status != Success ==> r' == r1 && status == if status1 == Success then Discard else status1)
  {
    var parsed := ParseRecord(b);
    if parsed.Some? {
      var rec := parsed.value;
      ParsedIsRecord(b);
      var o := OpenRecord(r, b);
      if o.status == Success && o.typ == 20 && o.plain == [1] && r.cipher.isNull {
        assert CcsInFront(r, b, rec);
      }
    }
    if rec :| CcsInFront(r, b, rec) {
      var rest :| b == RecordBytes(rec) + rest;
      ParseRecordInverts(rec, rest);
      CcsRecordIsFlagged(r, rec, rest, [1], maxLen);
    }
    FragmentsKeepCcs(r, b, maxLen);
  }

  ghost predicate CcsInFront(r: Receiver, b: seq<Byte>, rec: Record) {
    r.cipher.isNull && rec.typ == 20 && OpensTo(r, rec, [1]) && exists rest :: b == RecordBytes(rec) + rest
  }

  lemma {:induction false} FragmentsKeepCcs(r: Receiver, b: seq<Byte>, maxLen: nat)
    requires |r.slots| == MAX_FLIGHT
    ensures OpenRecord(r, b).typ == RT_HANDSHAKE ==> OpenHandshake(r, b, maxLen).0.hasCcs == r.hasCcs
  {
    var o := OpenRecord(r, b);
    ReceivedKeepsCcs(o.receiver, o.plain, maxLen);
  }

  lemma {:induction false} ReceivedKeepsCcs(r: Receiver, b: seq<Byte>, maxLen: nat)
    requires |r.slots| == MAX_FLIGHT
    ensures ReceiveFragments(r, b, maxLen).0.hasCcs == r.hasCcs
    decreases |b|
  {
    var frag := ParseFragment(b);
    if |b| > 0 && frag.Some? {
      SlotsKept(r, frag.value, maxLen);
      var (r', alert) := ReceiveFragment(r, frag.value, maxLen);
      if alert.None? {
        ReceivedKeepsCcs(r', b[HM_HEADER_LENGTH + |frag.value.body|..], maxLen);
      }
    }
  }
}
