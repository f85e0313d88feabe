// What a flight looks like on the wire: consecutive pieces that exactly partition every
// message (ssl/d1_both.cc, seal_next_message to send_flight).

module Fragmentation {
  import opened Wire
  import opened Ciphers
  import opened DtlsSender

  function PieceLen(m: Entry, x: Sealed): nat {
    if m.isCcs || |x.plain| < HM_HEADER_LENGTH then 0 else |x.plain| - HM_HEADER_LENGTH
  }

  // Record x carries the piece of entry m that starts at off. Only an empty message has
  // an empty piece.
  ghost predicate IsPiece(m: Entry, off: nat, x: Sealed) {
    && x.rec.epoch == m.epoch
    && if m.isCcs then off == 0 && x.rec.typ == RT_CHANGE_CIPHER_SPEC && x.plain == [MT_CCS]
       else
         var len := PieceLen(m, x);
         && x.rec.typ == RT_HANDSHAKE && off + len <= |m.body|
         && m.header.(fragOff := off, fragLen := len).Fits()
         && x.plain == HeaderBytes(m.header.(fragOff := off, fragLen := len)) + m.body[off..off + len]
         && (len > 0 || |m.body| == 0)
  }

  function After(m: Entry, p: Pos, len: nat): Pos {
    if m.isCcs || p.off + len == |m.body| then Pos(p.entry + 1, 0) else Pos(p.entry, p.off + len)
  }

  // The records take the write position from p to q with no gap and no overlap.
  ghost predicate Covers(fl: seq<Entry>, p: Pos, recs: seq<Sealed>, q: Pos)
    decreases |recs|
  {
    if recs == [] then p == q
    else
      && p.entry < |fl| && recs[0].entry == p.entry
      && IsPiece(fl[p.entry], p.off, recs[0])
      && Covers(fl, After(fl[p.entry], p, PieceLen(fl[p.entry], recs[0])), recs[1..], q)
  }

  lemma {:induction false} CoversJoin(fl: seq<Entry>, p: Pos, a: seq<Sealed>, q: Pos, b: seq<Sealed>, r: Pos)
    requires Covers(fl, p, a, q) && Covers(fl, q, b, r)
    ensures Covers(fl, p, a + b, r)
    decreases |a|
  {
    if a == [] {
      assert a + b == b;
    } else {
      assert (a + b)[1..] == a[1..] + b;
      CoversJoin(fl, After(fl[p.entry], p, PieceLen(fl[p.entry], a[0])), a[1..], q, b, r);
    }
  }

  // What one seal_next_message emits, and where it leaves the position.
  ghost predicate Emits(m: Entry, s: Sender, r: Sealing) {
    && r.sender.out == s.out && r.sender.written == s.written
    && match r.result
       case SealSuccess =>
         && |r.sealed| == 1 && r.sealed[0].entry == s.written && IsPiece(m, s.offset, r.sealed[0])
         && After(m, At(s), PieceLen(m, r.sealed[0])) == Pos(s.written + 1, 0)
         && r.sender.offset == 0
       case SealPartial =>
         && |r.sealed| == 1 && r.sealed[0].entry == s.written && IsPiece(m, s.offset, r.sealed[0])
         && After(m, At(s), PieceLen(m, r.sealed[0])) == At(r.sender)
       case _ => r.sealed == [] && r.sender.offset == s.offset
  }

  // The record dtls_seal_record makes is of the asked-for type, epoch and content.
  ghost predicate Makes(epoch: nat, typ: nat, plain: seq<Byte>, entry: nat, sealed: Option<Sealed>) {
    sealed.Some? ==>
      var x := sealed.value;
      x.rec.epoch == epoch && x.rec.typ == typ && x.plain == plain && x.entry == entry
  }

  lemma SealRecordMakes(w: WriteState, previous: bool, typ: nat, plain: seq<Byte>, maxOut: nat, entry: nat)
    requires previous ==> w.epoch >= 1
    ensures Makes(EpochUsed(w, previous), typ, plain, entry, SealRecord(w, previous, typ, plain, maxOut, entry).1)
  {
  }

  lemma {:induction false} SealFragmentEmits(m: Entry, s: Sender, previous: bool, f: Fragment, maxOut: nat)
    requires previous ==> s.ws.epoch >= 1
    requires m == Entry(false, EpochUsed(s.ws, previous), f.header, f.body)
    requires f.header.Fits() && |f.body| == f.header.fragLen && s.offset <= |f.body|
    requires s.offset == 0 || s.offset < |f.body|
    ensures Emits(m, s, SealFragment(s, previous, f, maxOut))
  {
  }

  lemma {:induction false} SealNextMessageEmits(s: Sender, maxOut: nat)
    requires Inv(s) && s.written < |s.out|
    ensures Emits(Flight(s.out)[s.written], s, SealNextMessage(s, maxOut))
  {
    var msg := s.out[s.written];
    EntryIsOk(s.out, s.written);
    FlightAt(s.out, s.written);
    var previous := s.ws.epoch >= 1 && msg.epoch == s.ws.epoch - 1;
    if previous || msg.epoch == s.ws.epoch {
      if msg.isCcs {
        SealRecordMakes(s.ws, previous, RT_CHANGE_CIPHER_SPEC, [MT_CCS], maxOut, s.written);
      } else {
        SealFragmentEmits(EntryOf(msg), s, previous, ParseFragment(msg.data).value, maxOut);
      }
    }
  }

  // The first record of a packet, then the rest of it.
  lemma {:induction false} RestCovers(fl: seq<Entry>, s: Sender, r: Sealing, tail: (Sender, bool, seq<Sealed>))
    requires s.written < |fl| && Emits(fl[s.written], s, r)
    requires r.result == SealSuccess ==> Covers(fl, Pos(s.written + 1, 0), tail.2, At(tail.0))
    requires r.result != SealSuccess ==> tail == (r.sender, tail.1, [])
    ensures Covers(fl, At(s), r.sealed + tail.2, At(tail.0))
  {
  }

  // A packet, finished or broken off by an error, covers the stretch its position moved over.
  lemma {:induction false} SealMessagesCovers(s: Sender, maxOut: nat)
    requires Inv(s)
    ensures var (s', ok, recs) := SealMessages(s, maxOut); Covers(Flight(s.out), At(s), recs, At(s'))
    decreases |s.out| - s.written, 1
  {
    if s.written < |s.out| {
      SealNextMessageEmits(s, maxOut);
      SealNextMessageKeepsInv(s, maxOut);
      SealRestCovers(Flight(s.out), s, SealNextMessage(s, maxOut), maxOut);
    }
  }

  lemma {:induction false} SealRestCovers(fl: seq<Entry>, s: Sender, r: Sealing, maxOut: nat)
    requires SealingOk(s, maxOut, r) && fl == Flight(s.out) && Emits(fl[s.written], s, r)
    ensures var (s', ok, recs) := SealRest(r, maxOut); Covers(fl, At(s), recs, At(s'))
    decreases |s.out| - s.written, 0
  {
    var (s', ok, recs) := SealRest(r, maxOut);
    if r.result == SealSuccess {
      var next := r.sender.(written := s.written + 1);
      var rest := maxOut - (RT_HEADER_LENGTH + |r.sealed[0].rec.body|);
      var tail := SealMessages(next, rest);
      assert (s', ok, recs) == (tail.0, tail.1, r.sealed + tail.2);
      SealMessagesCovers(next, rest);
      RestCovers(fl, s, r, tail);
    } else {
      RestCovers(fl, s, r, (r.sender, ok, []));
      assert r.sealed + [] == r.sealed;
    }
  }

  // The body bytes of entry i that the records carry, in the order they were emitted.
  ghost function Carried(recs: seq<Sealed>, i: nat): seq<Byte> {
    if recs == [] then []
    else
      (if recs[0].entry == i && recs[0].rec.typ == RT_HANDSHAKE && |recs[0].plain| >= HM_HEADER_LENGTH
       then recs[0].plain[HM_HEADER_LENGTH..] else [])
      + Carried(recs[1..], i)
  }

  ghost function CountOf(recs: seq<Sealed>, i: nat): nat {
    if recs == [] then 0 else (if recs[0].entry == i then 1 else 0) + CountOf(recs[1..], i)
  }

  // How much of entry i lies before position p.
  ghost function Before(fl: seq<Entry>, p: Pos, i: nat): nat
    requires i < |fl|
  {
    if i < p.entry then |fl[i].body| else if i == p.entry then p.off else 0
  }

  lemma PieceKeepsPosition(fl: seq<Entry>, p: Pos, x: Sealed)
    requires p.entry < |fl| && PosOk(fl, p) && IsPiece(fl[p.entry], p.off, x)
    ensures PosOk(fl, After(fl[p.entry], p, PieceLen(fl[p.entry], x)))
  {
  }

  // Between two positions every message is carried exactly: each byte once, in order.
  lemma {:induction false} CoversPartition(fl: seq<Entry>, p: Pos, recs: seq<Sealed>, q: Pos, i: nat)
    requires Covers(fl, p, recs, q) && PosOk(fl, p) && i < |fl| && !fl[i].isCcs
    ensures PosOk(fl, q) && p.entry <= q.entry && Before(fl, p, i) <= Before(fl, q, i) <= |fl[i].body|
    ensures Carried(recs, i) == fl[i].body[Before(fl, p, i)..Before(fl, q, i)]
    ensures p.entry <= i < q.entry ==> CountOf(recs, i) >= 1
    ensures i < p.entry || i > q.entry ==> CountOf(recs, i) == 0
    decreases |recs|
  {
    if recs != [] {
      var m, x := fl[p.entry], recs[0];
      var next := After(m, p, PieceLen(m, x));
      PieceKeepsPosition(fl, p, x);
      CoversPartition(fl, next, recs[1..], q, i);
      if i == p.entry {
        CarriedCons(m, p.off, x, recs, i, Before(fl, q, i));
      }
    }
  }

  lemma {:induction false} CarriedCons(m: Entry, off: nat, x: Sealed, recs: seq<Sealed>, i: nat, end: nat)
    requires recs != [] && x == recs[0] && x.entry == i && IsPiece(m, off, x) && !m.isCcs
    requires off + PieceLen(m, x) <= end <= |m.body|
    requires Carried(recs[1..], i) == m.body[off + PieceLen(m, x)..end]
    ensures Carried(recs, i) == m.body[off..end]
  {
  }

  lemma {:induction false} CoversCcs(fl: seq<Entry>, p: Pos, recs: seq<Sealed>, q: Pos, i: nat)
    requires Covers(fl, p, recs, q) && PosOk(fl, p) && i < |fl| && fl[i].isCcs
    ensures CountOf(recs, i) == if p.entry <= i < q.entry then 1 else 0
    decreases |recs|
  {
    if recs != [] {
      var next := After(fl[p.entry], p, PieceLen(fl[p.entry], recs[0]));
      PieceKeepsPosition(fl, p, recs[0]);
      CoversCcs(fl, next, recs[1..], q, i);
      CoversForward(fl, next, recs[1..], q);
    }
  }

  lemma {:induction false} CoversForward(fl: seq<Entry>, p: Pos, recs: seq<Sealed>, q: Pos)
    requires Covers(fl, p, recs, q)
    ensures p.entry <= q.entry
    decreases |recs|
  {
    if recs != [] {
      CoversForward(fl, After(fl[p.entry], p, PieceLen(fl[p.entry], recs[0])), recs[1..], q);
    }
  }

  // A flight sent from start to end delivers each message whole and each
  // ChangeCipherSpec once.
  lemma {:induction false} WholeFlight(fl: seq<Entry>, recs: seq<Sealed>, i: nat)
    requires Covers(fl, Pos(0, 0), recs, Pos(|fl|, 0)) && i < |fl|
    ensures if fl[i].isCcs then CountOf(recs, i) == 1
            else Carried(recs, i) == fl[i].body && CountOf(recs, i) >= 1
  {
    if fl[i].isCcs {
      CoversCcs(fl, Pos(0, 0), recs, Pos(|fl|, 0), i);
    } else {
      CoversPartition(fl, Pos(0, 0), recs, Pos(|fl|, 0), i);
    }
  }

  // Every record moves the position on, so a flight of any size is sent in finitely many.
  lemma {:induction false} CoversProgress(fl: seq<Entry>, p: Pos, recs: seq<Sealed>, q: Pos)
    requires Covers(fl, p, recs, q) && PosOk(fl, p) && recs != []
    ensures q.entry > p.entry || (q.entry == p.entry && q.off > p.off)
    decreases |recs|
  {
    var next := After(fl[p.entry], p, PieceLen(fl[p.entry], recs[0]));
    PieceKeepsPosition(fl, p, recs[0]);
    if recs[1..] != [] {
      CoversProgress(fl, next, recs[1..], q);
    }
  }

  lemma {:induction false} CoversKeepsPosition(fl: seq<Entry>, p: Pos, recs: seq<Sealed>, q: Pos)
    requires Covers(fl, p, recs, q) && PosOk(fl, p)
    ensures PosOk(fl, q)
    decreases |recs|
  {
    if recs != [] {
      PieceKeepsPosition(fl, p, recs[0]);
      CoversKeepsPosition(fl, After(fl[p.entry], p, PieceLen(fl[p.entry], recs[0])), recs[1..], q);
    }
  }

  // The plaintext of the first record of a packet, with this much room.
  function FirstPlain(s: Sender, c: Cipher, maxOut: nat): seq<Byte>
    requires s.written < |s.out| && EntryOk(s.out[s.written])
    requires maxOut >= FirstRoom(s, c)
    requires !s.out[s.written].isCcs ==> s.offset <= |ParseFragment(s.out[s.written].data).value.body|
  {
    var msg := s.out[s.written];
    if msg.isCcs then [MT_CCS]
    else
      var f, room := ParseFragment(msg.data).value, maxOut - RT_HEADER_LENGTH - c.MaxOverhead() - HM_HEADER_LENGTH;
      var left := |f.body| - s.offset;
      FragmentBytes(f, s.offset, if left > room then room else left)
  }

  // Room for the least that can be sealed.
  function FirstRoom(s: Sender, c: Cipher): nat
    requires s.written < |s.out|
  {
    RT_HEADER_LENGTH + c.MaxOverhead() + if s.out[s.written].isCcs then 1 else HM_HEADER_LENGTH + 1
  }

  // The first entry can be sealed: its epoch is live and has a number left, there is room for the
  // least record, and the cipher seals one that fits.
  ghost predicate Sealable(s: Sender, maxOut: nat)
    requires Inv(s) && s.written < |s.out|
  {
    EntryIsOk(s.out, s.written);
    FlightAt(s.out, s.written);
    var msg := s.out[s.written];
    var previous := s.ws.epoch >= 1 && msg.epoch == s.ws.epoch - 1;
    && (previous || msg.epoch == s.ws.epoch)
    && var c, n := Context(s.ws, previous), if previous then s.ws.lastSeqNum else s.ws.seqNum;
       && n + 1 < SEQUENCE_LIMIT && maxOut >= FirstRoom(s, c)
       && var sealed := c.Seal(if msg.isCcs then RT_CHANGE_CIPHER_SPEC else RT_HANDSHAKE, s.ws.cipher.version,
                               Sequence64(msg.epoch, n), FirstPlain(s, c, maxOut));
          sealed.Some? && |sealed.value| <= maxOut - RT_HEADER_LENGTH && |sealed.value| < 0x1_0000
  }

  lemma {:induction false} FirstSeals(s: Sender, maxOut: nat)
    requires Inv(s) && s.written < |s.out|
    ensures SealNextMessage(s, maxOut).sealed != [] <==> Sealable(s, maxOut)
  {
    EntryIsOk(s.out, s.written);
    FlightAt(s.out, s.written);
    var msg := s.out[s.written];
    var previous := s.ws.epoch >= 1 && msg.epoch == s.ws.epoch - 1;
    if previous || msg.epoch == s.ws.epoch {
      if msg.isCcs {
        FirstCcsSeals(s, previous, maxOut);
      } else {
        FirstFragmentSeals(s, previous, maxOut);
      }
    }
  }

  lemma {:induction false} FirstCcsSeals(s: Sender, previous: bool, maxOut: nat)
    requires Inv(s) && s.written < |s.out| && s.out[s.written].isCcs && (previous ==> s.ws.epoch >= 1)
    requires previous == (s.ws.epoch >= 1 && s.out[s.written].epoch == s.ws.epoch - 1)
    requires s.out[s.written].epoch == EpochUsed(s.ws, previous)
    ensures SealCcs(s, previous, maxOut).sealed != [] <==> Sealable(s, maxOut)
  {
  }

  lemma {:induction false} FirstFragmentSeals(s: Sender, previous: bool, maxOut: nat)
    requires Inv(s) && s.written < |s.out| && !s.out[s.written].isCcs && (previous ==> s.ws.epoch >= 1)
    requires previous == (s.ws.epoch >= 1 && s.out[s.written].epoch == s.ws.epoch - 1)
    requires s.out[s.written].epoch == EpochUsed(s.ws, previous) && EntryOk(s.out[s.written])
    requires s.offset <= |ParseFragment(s.out[s.written].data).value.body|
    ensures SealFragment(s, previous, ParseFragment(s.out[s.written].data).value, maxOut).sealed != []
            <==> Sealable(s, maxOut)
  {
  }

  // What a packet leaves, be it sealed to its end or not: the write position is behind its records,
  // and where it was exactly when there is none, that is, when not even the first can be sealed.
  lemma {:induction false} PacketLeaves(s: Sender, maxOut: nat)
    requires Inv(s) && s.written < |s.out|
    ensures var (s', ok, recs) := SealNextPacket(s, maxOut);
            && Covers(Flight(s.out), At(s), recs, At(s'))
            && (At(s') == At(s) <==> recs == [])
            && (recs == [] <==> !Sealable(s, maxOut))
            && (ok ==> recs != [])
  {
    FirstSeals(s, maxOut);
    SealMessagesCovers(s, maxOut);
    var (s', ok, recs) := SealNextPacket(s, maxOut);
    if recs != [] {
      CoversProgress(Flight(s.out), At(s), recs, At(s'));
    }
  }

  // A sender of a message and a ChangeCipherSpec, two records before the sequence numbers run out.
  function LateSender(none: Cipher, typ: nat, body: seq<Byte>): Sender
    requires typ < 0x100 && |body| < 0x100_0000
  {
    var out := [Outgoing(MessageBytes(typ, 0, body), 0, false), Outgoing([], 0, true)];
    Sender(out, 0, 0, true, WriteState(0, none, SEQUENCE_LIMIT - 2, none, 0), 1)
  }

  // The message is sealed and the ChangeCipherSpec is not: the packet with both is lost, but the
  // write position is behind the message.
  lemma {:induction false} LatePacketIsLost(none: Cipher, typ: nat, body: seq<Byte>, maxOut: nat)
    requires none.isNull && none.version < 0x1_0000 && typ < 0x100 && |body| < 0x1000 && maxOut >= |body| + 64
    ensures Inv(LateSender(none, typ, body))
    ensures var (s', ok, recs) := SealNextPacket(LateSender(none, typ, body), maxOut);
            !ok && |recs| == 1 && recs[0].rec.typ == RT_HANDSHAKE && At(s') == Pos(1, 0)
  {
    MessageParses(typ, 0, body);
    var s := LateSender(none, typ, body);
    LateSenderOk(none, typ, body);
    var r := SealNextMessage(s, maxOut);
    var used := RT_HEADER_LENGTH + HM_HEADER_LENGTH + |body|;
    assert r.result == SealSuccess && RT_HEADER_LENGTH + |r.sealed[0].rec.body| == used;
    var next := r.sender.(written := 1);
    var r' := SealNextMessage(next, maxOut - used);
    assert r'.result == SealError;
    assert SealMessages(next, maxOut - used) == (r'.sender, false, []);
    assert r.sealed + [] == r.sealed;
    assert SealRest(r, maxOut) == (r'.sender, false, r.sealed);
    assert SealMessages(s, maxOut) == (r'.sender, false, r.sealed);
  }

  lemma {:induction false} LateSenderOk(none: Cipher, typ: nat, body: seq<Byte>)
    requires none.version < 0x1_0000 && typ < 0x100 && |body| < 0x1000
    ensures Inv(LateSender(none, typ, body))
  {
    MessageParses(typ, 0, body);
    var s := LateSender(none, typ, body);
    assert s.out[..1] == [s.out[0]] && [s.out[0]][..0] == [];
    assert EntriesOk([]) && EntryOk(s.out[0]) && EntriesOk([s.out[0]]) && EntryOk(s.out[1]);
  }

  // The bytes left in the entry at the write position.
  ghost function LeftInEntry(fl: seq<Entry>, p: Pos): int {
    if p.entry < |fl| then |fl[p.entry].body| - p.off else 0
  }

  ghost function Flat(packets: seq<seq<Sealed>>): seq<Sealed> {
    if packets == [] then [] else Flat(packets[..|packets| - 1]) + packets[|packets| - 1]
  }

  ghost function Datagrams(packets: seq<seq<Sealed>>): seq<seq<Byte>> {
    seq(|packets|, i requires 0 <= i < |packets| => PacketBytes(packets[i]))
  }
}
