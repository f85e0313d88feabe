// What becomes of a record, said about its bytes: which ones are opened, what a good one
// adds to the ring, and that any other leaves the receiver alone (ssl/dtls_record.cc).

module DtlsOpening {
  import opened Wire
  import opened Reassembly
  import opened ReplayWindow
  import opened Ciphers
  import opened DtlsReceiver
  import opened DtlsAssembly

  // The version field a receiver with this cipher goes on with.
  predicate VersionFits(c: Cipher, version: nat) {
    if c.isNull then 0xfe00 <= version < 0xff00 else version == c.version
  }

  // The record is of the read epoch, neither a replay nor stale, and opens to this plaintext.
  ghost predicate OpensTo(r: Receiver, rec: Record, plain: seq<Byte>) {
    var seq64 := rec.epoch * 0x1_0000_0000_0000 + rec.seqNum;
    && rec.Fits() && |rec.body| <= 16704 && VersionFits(r.cipher, rec.version)
    && rec.epoch == r.rEpoch && !Rejects(r.accepted, seq64)
    && r.cipher.Open(rec.typ, rec.version, seq64, rec.body) == Some(plain)
  }

  // The receiver once the record's number is marked as seen.
  ghost function Accepting(r: Receiver, rec: Record): Receiver {
    r.(accepted := r.accepted + {rec.epoch * 0x1_0000_0000_0000 + rec.seqNum})
  }

  lemma {:induction false} RecordOpens(r: Receiver, rec: Record, plain: seq<Byte>, rest: seq<Byte>)
    requires OpensTo(r, rec, plain)
    ensures OpenRecord(r, RecordBytes(rec) + rest) ==
              if |plain| > 16384 then Opened(r, Error(RecordOverflow), 13 + |rec.body|, 0, [])
              else Opened(Accepting(r, rec), if rec.typ == 21 then AlertRecord else Success, 13 + |rec.body|, rec.typ,
                          plain)
  {
    ParseRecordInverts(rec, rest);
  }

  // The bytes of fragments put one behind the other in a record.
  function RunBytes(frags: seq<Fragment>): seq<Byte> {
    if frags == [] then [] else HeaderBytes(frags[0].header) + frags[0].body + RunBytes(frags[1..])
  }

  lemma {:induction false} RunIsReceived(r: Receiver, frags: seq<Fragment>, messages: map<nat, Message>, maxLen: nat)
    requires Inv(r) && Holds(r, messages)
    requires forall i :: 0 <= i < |frags| ==> Wanted(r, frags[i], messages, maxLen)
    ensures ReceiveFragments(r, RunBytes(frags), maxLen) == (ReceiveAll(r, frags, maxLen), None)
    decreases |frags|
  {
    if frags != [] {
      var b := RunBytes(frags);
      ParseFragmentInverts(frags[0].header, frags[0].body, RunBytes(frags[1..]));
      assert b[HM_HEADER_LENGTH + |frags[0].body|..] == RunBytes(frags[1..]);
      OneFragmentTaken(r, frags[0], messages, maxLen);
      RunIsReceived(ReceiveFragment(r, frags[0], maxLen).0, frags[1..], messages, maxLen);
    }
  }

  lemma {:induction false} RunChangesSlots(r: Receiver, frags: seq<Fragment>, maxLen: nat)
    requires |r.slots| == MAX_FLIGHT
    ensures ReceiveAll(r, frags, maxLen) == r.(slots := ReceiveAll(r, frags, maxLen).slots)
    decreases |frags|
  {
    if frags != [] {
      SlotsKept(r, frags[0], maxLen);
      RunChangesSlots(ReceiveFragment(r, frags[0], maxLen).0, frags[1..], maxLen);
    }
  }

  // A good handshake record is opened: whatever follows it in the datagram, it alone is
  // consumed, its number is marked as seen, and each message of the window gains exactly
  // what the record's fragments cover.
  lemma {:induction false} GoodRecordIsTaken(r: Receiver, rec: Record, rest: seq<Byte>, frags: seq<Fragment>,
                                             messages: map<nat, Message>, maxLen: nat)
    requires Inv(r) && Holds(r, messages)
    requires rec.typ == 22 && OpensTo(r, rec, RunBytes(frags)) && |RunBytes(frags)| <= 16384
    requires forall i :: 0 <= i < |frags| ==> Wanted(r, frags[i], messages, maxLen)
    ensures var (r', status, used) := OpenHandshake(r, RecordBytes(rec) + rest, maxLen);
            && status == Success && used == |RecordBytes(rec)|
            && Inv(r') && Holds(r', messages) && r' == Accepting(r, rec).(slots := r'.slots)
            && forall s :: r.readSeq <= s < r.readSeq + MAX_FLIGHT ==> Held(r', s) == Held(r, s) + Covered(frags, s)
  {
    var r1 := Accepting(r, rec);
    RecordOpens(r, rec, RunBytes(frags), rest);
    AcceptKeepsInv(r, r1);
    RunIsReceived(r1, frags, messages, maxLen);
    RunChangesSlots(r1, frags, maxLen);
    RingHoldsUnion(r1, frags, messages, maxLen, r.readSeq);
    forall s | r.readSeq <= s < r.readSeq + MAX_FLIGHT
      ensures Held(ReceiveAll(r1, frags, maxLen), s) == Held(r, s) + Covered(frags, s)
    {
      RingHoldsUnion(r1, frags, messages, maxLen, s);
    }
  }

  // The message waited for keeps its slot, and has one once a fragment of it came.
  lemma {:induction false} GoodRecordTakesSlot(r: Receiver, rec: Record, rest: seq<Byte>, frag: Fragment,
                                               messages: map<nat, Message>, maxLen: nat)
    requires Inv(r) && Holds(r, messages)
    requires rec.typ == 22 && OpensTo(r, rec, RunBytes([frag])) && |RunBytes([frag])| <= 16384
    requires Wanted(r, frag, messages, maxLen)
    requires r.slots[r.readSeq % MAX_FLIGHT].Some? || frag.header.seqNum == r.readSeq
    ensures var r' := OpenHandshake(r, RecordBytes(rec) + rest, maxLen).0;
            |r'.slots| == MAX_FLIGHT && r'.slots[r.readSeq % MAX_FLIGHT].Some?
  {
    var r1 := Accepting(r, rec);
    RecordOpens(r, rec, RunBytes([frag]), rest);
    AcceptKeepsInv(r, r1);
    RunIsReceived(r1, [frag], messages, maxLen);
    SlotTaken(r1, [frag], messages, maxLen);
  }

  // A ChangeCipherSpec is flagged before the first cipher change, and an error later on.
  lemma {:induction false} CcsRecordIsFlagged(r: Receiver, rec: Record, rest: seq<Byte>, plain: seq<Byte>, maxLen: nat)
    requires |r.slots| == MAX_FLIGHT && rec.typ == 20 && OpensTo(r, rec, plain) && |plain| <= 16384
    ensures OpenHandshake(r, RecordBytes(rec) + rest, maxLen) ==
              if !r.cipher.isNull then (Accepting(r, rec), Error(UnexpectedMessage), |RecordBytes(rec)|)
              else if plain != [1] then (Accepting(r, rec), Error(IllegalParameter), |RecordBytes(rec)|)
              else (Accepting(r, rec).(hasCcs := true), Success, |RecordBytes(rec)|)
  {
    RecordOpens(r, rec, plain, rest);
  }

  // Alerts are handed on; application data is dropped under a cipher and an error
  // without one; any other type is an error. None of them touches the ring.
  lemma {:induction false} OtherRecords(r: Receiver, rec: Record, rest: seq<Byte>, plain: seq<Byte>, maxLen: nat)
    requires |r.slots| == MAX_FLIGHT && rec.typ != 20 && rec.typ != 22
    requires OpensTo(r, rec, plain) && |plain| <= 16384
    ensures var (r', status, used) := OpenHandshake(r, RecordBytes(rec) + rest, maxLen);
            && r' == Accepting(r, rec) && used == |RecordBytes(rec)|
            && status == if rec.typ == 21 then AlertRecord
                         else if rec.typ == 23 && !r.cipher.isNull then Discard else Error(UnexpectedMessage)
  {
    RecordOpens(r, rec, plain, rest);
  }

  // A record that is not opened leaves the receiver as it was. One of another version, or
  // longer than any record may be, takes the rest of the datagram with it; one of another
  // epoch, a replay or one that does not decrypt is dropped alone.
  lemma {:induction false} BadRecordIsDropped(r: Receiver, rec: Record, rest: seq<Byte>, maxLen: nat)
    requires |r.slots| == MAX_FLIGHT && rec.Fits()
    requires forall plain :: !OpensTo(r, rec, plain)
    ensures OpenHandshake(r, RecordBytes(rec) + rest, maxLen) ==
              (r, Discard, if |rec.body| > 16704 || !VersionFits(r.cipher, rec.version)
                           then |RecordBytes(rec) + rest| else |RecordBytes(rec)|)
  {
    ParseRecordInverts(rec, rest);
    if r.cipher.Open(rec.typ, rec.version, Sequence64(rec.epoch, rec.seqNum), rec.body).Some? {
      assert !OpensTo(r, rec, r.cipher.Open(rec.typ, rec.version, Sequence64(rec.epoch, rec.seqNum), rec.body).value);
    }
  }

  // What is too short for a header, or for the length in it, is dropped as a whole.
  lemma {:induction false} TornRecordIsDropped(r: Receiver, rec: Record, cut: nat, maxLen: nat)
    requires |r.slots| == MAX_FLIGHT && rec.Fits() && cut < |RecordBytes(rec)|
    ensures OpenHandshake(r, RecordBytes(rec)[..cut], maxLen) == (r, if cut == 0 then Partial else Discard, cut)
  {
    var b := RecordBytes(rec)[..cut];
    if cut >= RT_HEADER_LENGTH {
      RtWidths(rec);
      SerializedLength(rec.Fields());
      assert b[0..0 + RT_HEADER_LENGTH] == Serialize(rec.Fields());
      Limits();
      FieldInverts(rec.Fields(), 4, b, 0);
    }
  }
}
