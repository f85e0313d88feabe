// What the receive ring makes of fragments: whatever their order and however they
// overlap or repeat, each held message has exactly the bytes its fragments cover.

module DtlsAssembly {
  import opened Wire
  import opened Reassembly
  import opened DtlsReceiver

  // The fragment is a slice of the message its number stands for.
  ghost predicate SliceOf(frag: Fragment, messages: map<nat, Message>) {
    var h := frag.header;
    && h.Fits() && h.seqNum in messages
    && h.typ == messages[h.seqNum].typ && h.msgLen == |messages[h.seqNum].body|
    && h.fragLen == |frag.body| && h.fragOff + h.fragLen <= h.msgLen
    && frag.body == messages[h.seqNum].body[h.fragOff..h.fragOff + h.fragLen]
  }

  ghost predicate PartOf(f: Frag, messages: map<nat, Message>) {
    && f.seqNum in messages && f.typ == messages[f.seqNum].typ && f.msgLen == |messages[f.seqNum].body|
    && forall j :: j in f.bytes ==> j < f.msgLen && f.bytes[j] == messages[f.seqNum].body[j]
  }

  ghost predicate Holds(r: Receiver, messages: map<nat, Message>) {
    && |r.slots| == MAX_FLIGHT
    && forall i :: 0 <= i < MAX_FLIGHT && r.slots[i].Some? ==> PartOf(r.slots[i].value, messages)
  }

  ghost function ReceiveAll(r: Receiver, frags: seq<Fragment>, maxLen: nat): Receiver
    requires |r.slots| == MAX_FLIGHT
    decreases |frags|
  {
    if frags == [] then r
    else
      SlotsKept(r, frags[0], maxLen);
      ReceiveAll(ReceiveFragment(r, frags[0], maxLen).0, frags[1..], maxLen)
  }

  // The offsets of message s that some fragment of the list covers.
  ghost function Covered(frags: seq<Fragment>, s: nat): set<nat> {
    if frags == [] then {}
    else
      (if frags[0].header.seqNum == s
       then Range(frags[0].header.fragOff, frags[0].header.fragOff + |frags[0].body|)
       else {})
      + Covered(frags[1..], s)
  }

  // The offsets of message s that the ring holds.
  ghost function Held(r: Receiver, s: nat): set<nat>
    requires |r.slots| == MAX_FLIGHT
  {
    var slot := r.slots[s % MAX_FLIGHT];
    if slot.Some? && slot.value.seqNum == s then slot.value.bytes.Keys else {}
  }

  ghost predicate Wanted(r: Receiver, frag: Fragment, messages: map<nat, Message>, maxLen: nat) {
    SliceOf(frag, messages) && frag.header.msgLen <= maxLen && (r.rEpoch == 1 ==> frag.header.seqNum == r.readSeq)
    && frag.header.seqNum != r.readSeq + MAX_FLIGHT
  }

  lemma {:induction false} OneFragmentTaken(r: Receiver, frag: Fragment, messages: map<nat, Message>, maxLen: nat)
    requires Inv(r) && Holds(r, messages) && Wanted(r, frag, messages, maxLen)
    ensures var (r', alert) := ReceiveFragment(r, frag, maxLen);
            && alert == None && Inv(r') && Holds(r', messages)
            && r'.readSeq == r.readSeq && r'.rEpoch == r.rEpoch
  {
    var h := frag.header;
    var (r', alert) := ReceiveFragment(r, frag, maxLen);
    ReceiveFragmentKeepsInv(r, frag, maxLen);
    var i := h.seqNum % MAX_FLIGHT;
    if r.readSeq <= h.seqNum < r.readSeq + MAX_FLIGHT {
      if r.slots[i].Some? {
        SlotHoldsOneMessage(r, h);
        assert PartOf(r.slots[i].value, messages);
        PieceFits(r.slots[i].value, frag, messages, r.rEpoch);
      } else {
        PieceFits(Frag(h.typ, h.seqNum, h.msgLen, map[], {r.rEpoch}), frag, messages, r.rEpoch);
      }
    }
  }

  // Of an honest message's fragments, just the wanted ones are taken without an alert.
  lemma {:induction false} TakenIfWanted(r: Receiver, frag: Fragment, messages: map<nat, Message>, maxLen: nat)
    requires Inv(r) && Holds(r, messages) && SliceOf(frag, messages)
    ensures ReceiveFragment(r, frag, maxLen).1 == None <==> Wanted(r, frag, messages, maxLen)
  {
    if Wanted(r, frag, messages, maxLen) {
      OneFragmentTaken(r, frag, messages, maxLen);
    }
  }

  // One that is seven ahead is within the first guard and an error at the second.
  lemma {:induction false} SevenAheadIsFatal(r: Receiver, frag: Fragment, messages: map<nat, Message>, maxLen: nat)
    requires Inv(r) && SliceOf(frag, messages) && frag.header.msgLen <= maxLen && r.rEpoch != 1
    requires frag.header.seqNum == r.readSeq + MAX_FLIGHT
    ensures ReceiveFragment(r, frag, maxLen) == (r, Some(InternalError))
  {
  }

  lemma {:induction false} OneFragmentAdds(r: Receiver, frag: Fragment, messages: map<nat, Message>, maxLen: nat,
                                           s: nat)
    requires Inv(r) && Holds(r, messages) && Wanted(r, frag, messages, maxLen)
    requires r.readSeq <= s < r.readSeq + MAX_FLIGHT
    ensures |ReceiveFragment(r, frag, maxLen).0.slots| == MAX_FLIGHT
    ensures Held(ReceiveFragment(r, frag, maxLen).0, s) == Held(r, s) + Covered([frag], s)
  {
    var h := frag.header;
    WithinMessage(h, frag);
    assert Covered([frag], s) == if h.seqNum == s then Range(h.fragOff, h.fragOff + |frag.body|) else {};
    if r.readSeq <= h.seqNum < r.readSeq + MAX_FLIGHT {
      TakenAdds(r, frag, messages, s);
    }
  }

  lemma {:induction false} TakenAdds(r: Receiver, frag: Fragment, messages: map<nat, Message>, s: nat)
    requires Inv(r) && Holds(r, messages) && SliceOf(frag, messages)
    requires r.readSeq <= s < r.readSeq + MAX_FLIGHT
    requires r.readSeq <= frag.header.seqNum < r.readSeq + MAX_FLIGHT
    ensures |TakeFragment(r, frag).0.slots| == MAX_FLIGHT
    ensures Held(TakeFragment(r, frag).0, s) == Held(r, s) + if frag.header.seqNum == s
              then Range(frag.header.fragOff, frag.header.fragOff + |frag.body|) else {}
  {
    var h, i := frag.header, frag.header.seqNum % MAX_FLIGHT;
    NumbersApart(r.readSeq, h.seqNum, s);
    var f := if r.slots[i].Some? then r.slots[i].value else Frag(h.typ, h.seqNum, h.msgLen, map[], {r.rEpoch});
    if r.slots[i].Some? {
      SlotHoldsOneMessage(r, h);
      assert PartOf(f, messages);
    }
    var f' := f.Received(h.fragOff, frag.body, r.rEpoch);
    PieceFits(f, frag, messages, r.rEpoch);
    WithinMessage(h, frag);
    var next := if f.Complete() then f else f';
    assert next.bytes.Keys == f.bytes.Keys + Range(h.fragOff, h.fragOff + |frag.body|);
    HeldInSlot(r, i, next, s);
    assert TakeFragment(r, frag).0 == r.(slots := r.slots[i := Some(next)]);
  }

  lemma HeldInSlot(r: Receiver, i: nat, f: Frag, s: nat)
    requires |r.slots| == MAX_FLIGHT && i < MAX_FLIGHT
    ensures Held(r.(slots := r.slots[i := Some(f)]), s)
            == if s % MAX_FLIGHT != i then Held(r, s) else if f.seqNum == s then f.bytes.Keys else {}
  {
  }

  lemma NumbersApart(readSeq: nat, n: nat, s: nat)
    requires readSeq <= n < readSeq + MAX_FLIGHT && readSeq <= s < readSeq + MAX_FLIGHT
    ensures n % MAX_FLIGHT == s % MAX_FLIGHT <==> n == s
  {
  }

  lemma {:induction false} WithinMessage(h: HmHeader, frag: Fragment)
    requires h == frag.header && h.fragLen == |frag.body| && h.fragOff + h.fragLen <= h.msgLen
    ensures Range(h.fragOff, h.fragOff + |frag.body|) <= Range(0, h.msgLen)
  {
  }

  lemma {:induction false} PieceFits(f: Frag, frag: Fragment, messages: map<nat, Message>, epoch: nat)
    requires SliceOf(frag, messages) && f.seqNum == frag.header.seqNum && f.msgLen == frag.header.msgLen
    requires forall j :: j in f.bytes ==> j < f.msgLen && f.bytes[j] == messages[f.seqNum].body[j]
    ensures var f' := f.Received(frag.header.fragOff, frag.body, epoch);
            && f'.bytes.Keys == f.bytes.Keys + Range(frag.header.fragOff, frag.header.fragOff + |frag.body|)
            && forall j :: j in f'.bytes ==> j < f.msgLen && f'.bytes[j] == messages[f.seqNum].body[j]
  {
  }

  // Any run of fragments of the right messages is taken without an alert, and adds to
  // each message of the window exactly what the fragments cover.
  lemma {:induction false} RingHoldsUnion(r: Receiver, frags: seq<Fragment>, messages: map<nat, Message>,
                                          maxLen: nat, s: nat)
    requires Inv(r) && Holds(r, messages)
    requires forall i :: 0 <= i < |frags| ==> Wanted(r, frags[i], messages, maxLen)
    requires r.readSeq <= s < r.readSeq + MAX_FLIGHT
    ensures var r' := ReceiveAll(r, frags, maxLen);
            && Inv(r') && Holds(r', messages) && r'.readSeq == r.readSeq
            && Held(r', s) == Held(r, s) + Covered(frags, s)
    decreases |frags|
  {
    if frags != [] {
      OneFragmentTaken(r, frags[0], messages, maxLen);
      OneFragmentAdds(r, frags[0], messages, maxLen, s);
      var r1 := ReceiveFragment(r, frags[0], maxLen).0;
      assert Covered(frags, s) == Covered([frags[0]], s) + Covered(frags[1..], s);
      RingHoldsUnion(r1, frags[1..], messages, maxLen, s);
    }
  }

  // Once its fragments cover the current message, however they came, it is handed out whole.
  lemma {:induction false} CoveredMessageIsDelivered(r: Receiver, frags: seq<Fragment>, messages: map<nat, Message>,
                                                     maxLen: nat)
    requires Inv(r) && Holds(r, messages) && r.readSeq in messages
    requires forall i :: 0 <= i < |frags| ==> Wanted(r, frags[i], messages, maxLen)
    requires exists i :: 0 <= i < |frags| && frags[i].header.seqNum == r.readSeq
    requires Covered(frags, r.readSeq) == Range(0, |messages[r.readSeq].body|)
    ensures |ReceiveAll(r, frags, maxLen).slots| == MAX_FLIGHT
    ensures GetMessage(ReceiveAll(r, frags, maxLen)).1 == Some(messages[r.readSeq])
  {
    var s := r.readSeq;
    var r' := ReceiveAll(r, frags, maxLen);
    RingHoldsUnion(r, frags, messages, maxLen, s);
    SlotTaken(r, frags, messages, maxLen);
    WholeIsReturned(r', messages);
  }

  lemma {:induction false} WholeIsReturned(r: Receiver, messages: map<nat, Message>)
    requires Inv(r) && Holds(r, messages) && r.readSeq in messages && r.slots[r.readSeq % MAX_FLIGHT].Some?
    requires Held(r, r.readSeq) == Range(0, |messages[r.readSeq].body|)
    ensures GetMessage(r).1 == Some(messages[r.readSeq])
  {
    var f := r.slots[r.readSeq % MAX_FLIGHT].value;
    assert SlotOk(r, r.readSeq % MAX_FLIGHT, f);
    WholePart(f, messages);
  }

  lemma {:induction false} WholePart(f: Frag, messages: map<nat, Message>)
    requires PartOf(f, messages) && f.bytes.Keys == Range(0, |messages[f.seqNum].body|)
    ensures f.Complete() && f.Body() == messages[f.seqNum].body
  {
    forall j | 0 <= j < f.msgLen
      ensures f.Body()[j] == messages[f.seqNum].body[j]
    {
      assert Between(j, 0, f.msgLen) && j in f.bytes;
    }
  }

  lemma {:induction false} SlotTaken(r: Receiver, frags: seq<Fragment>, messages: map<nat, Message>, maxLen: nat)
    requires Inv(r) && Holds(r, messages)
    requires forall i :: 0 <= i < |frags| ==> Wanted(r, frags[i], messages, maxLen)
    requires r.slots[r.readSeq % MAX_FLIGHT].Some?
             || exists i :: 0 <= i < |frags| && frags[i].header.seqNum == r.readSeq
    ensures |ReceiveAll(r, frags, maxLen).slots| == MAX_FLIGHT
    ensures ReceiveAll(r, frags, maxLen).slots[r.readSeq % MAX_FLIGHT].Some?
    decreases |frags|
  {
    if frags != [] {
      OneFragmentTaken(r, frags[0], messages, maxLen);
      var r1 := ReceiveFragment(r, frags[0], maxLen).0;
      if r1.slots[r.readSeq % MAX_FLIGHT].None? {
        var i :| 0 <= i < |frags| && frags[i].header.seqNum == r.readSeq;
        assert i > 0;
        assert frags[1..][i - 1].header.seqNum == r.readSeq;
      }
      SlotTaken(r1, frags[1..], messages, maxLen);
    }
  }
}
