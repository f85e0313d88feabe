// Whole runs of the TLS write path: application data under way, flights, alerts and failed writes in
// any order.

module TlsRuns {
  import opened Wire
  import opened SslBuffers
  import opened TlsWriter

  // What the caller can do next. Data writes all that is left of the caller's stream, as a call that is
  // taken up again has to.
  datatype Op =
    | Data(address: nat)
    | Message(msg: seq<Byte>)
    | ChangeCipherSpec
    | FlightAlert(level: Byte, desc: Byte)
    | Flush
    | Alert(level: Byte, desc: Byte)
    | Dispatch
    | FragmentSize(n: nat)
    | NewCipher(overhead: nat, alignPrefix: nat)

  // The size condition of the calls that make a write buffer.
  ghost predicate Orderly(w: Writer, op: Op, stream: seq<Byte>, done: nat)
    requires w.Valid() && done <= |stream|
    reads w, w.buffer
  {
    match op
    case Data(_) => w.wnum <= |stream| - done ==> w.CallKeepsOrder(|stream| - done, w.wnum)
    case Alert(_, _) => w.KeepsOrder(2)
    case Dispatch => w.KeepsOrder(2)
    case _ => true
  }

  // Of the stream, done bytes are written as far as the caller knows; what is sealed is as far as the
  // writer has come.
  ghost predicate Streamed(w: Writer, base: seq<Byte>, stream: seq<Byte>, done: nat)
    reads w
  {
    done <= |stream| && w.Started(base + stream[..done], stream[done..])
  }

  lemma {:induction false} OtherRecords(before: seq<Sealed>, after: seq<Sealed>, typ: nat, limit: nat, other: nat)
    requires Extends(before, after, typ, limit) && other != typ
    ensures Plain(after, other) == Plain(before, other)
    decreases |after|
  {
    if |after| > |before| {
      OtherRecords(before, after[..|after| - 1], typ, limit, other);
    } else {
      assert after == before;
    }
  }

  lemma {:induction false} OneOtherRecord(before: seq<Sealed>, after: seq<Sealed>, typ: nat, plain: seq<Byte>,
                                          other: nat)
    requires SealsOne(before, after, typ, plain) && other != typ
    ensures Plain(after, other) == Plain(before, other)
  {
    SealedOneMore(before, after[|after| - 1], other);
  }

  lemma {:induction false} StreamMovesOn(log: seq<Sealed>, base: seq<Byte>, stream: seq<Byte>, done: nat, n: nat)
    requires done <= |stream| && Accounted(log, RT_APPLICATION_DATA, base + stream[..done], stream[done..], n)
    ensures done + n <= |stream|
    ensures Accounted(log, RT_APPLICATION_DATA, base + stream[..done + n], stream[done + n..], 0)
  {
    assert stream[..done] + stream[done..][..n] == stream[..done + n];
    assert base + stream[..done] + stream[done..][..n] == base + stream[..done + n];
    assert base + stream[..done + n] + stream[done + n..][..0] == base + stream[..done + n];
  }

  method WriteRest(w: Writer, address: nat, stream: seq<Byte>, done: nat, ghost base: seq<Byte>) returns (done': nat)
    requires w.Valid() && done <= |stream| <= INT_MAX
    modifies w`flight, w`flightOffset, w`log, w`sent, w`failures, w`wpend, w`wpendPending, w`wnum
    modifies w.buffer, w.buffer.mem
    ensures w.Valid() && old(w.sent) <= w.sent && done <= done' <= |stream|
    ensures w.buffer.mem == old(w.buffer.mem) || fresh(w.buffer.mem)
    ensures old(Streamed(w, base, stream, done)) ==> Streamed(w, base, stream, done')
    ensures old(w.InOrder()) && old(Orderly(w, Data(address), stream, done)) ==> w.InOrder()
  {
    ghost var begun := Streamed(w, base, stream, done);
    var ret := w.WriteAppData(stream[done..], |stream| - done, address, base + stream[..done]);
    done' := done;
    if ret > 0 {
      done' := done + ret;
      if begun {
        StreamMovesOn(w.log, base, stream, done, ret);
      }
    }
  }

  // Records for the flight, which is not begun to be written.
  method Queue(w: Writer, op: Op, ghost base: seq<Byte>, ghost stream: seq<Byte>, ghost done: nat)
    requires w.Valid() && w.flightOffset == 0 && (op.Message? || op.ChangeCipherSpec? || op.FlightAlert?)
    modifies w`flight, w`log, w`failures
    ensures w.Valid() && (old(w.InOrder()) ==> w.InOrder())
    ensures old(Streamed(w, base, stream, done)) ==> Streamed(w, base, stream, done)
  {
    var ok;
    match op {
      case Message(msg) =>
        ghost var n;
        ok, n := w.AddMessage(msg, Plain(w.log, RT_HANDSHAKE));
        OtherRecords(old(w.log), w.log, RT_HANDSHAKE, w.maxSendFragment, RT_APPLICATION_DATA);
      case ChangeCipherSpec =>
        ok := w.AddChangeCipherSpec();
        if ok {
          OneOtherRecord(old(w.log), w.log, RT_CHANGE_CIPHER_SPEC, [1], RT_APPLICATION_DATA);
        }
      case FlightAlert(level, desc) =>
        ok := w.AddAlert(level, desc);
        if ok {
          OneOtherRecord(old(w.log), w.log, RT_ALERT, [level, desc], RT_APPLICATION_DATA);
        }
    }
  }

  // What is queued goes out, or an alert.
  method Push(w: Writer, op: Op, ghost base: seq<Byte>, ghost stream: seq<Byte>, ghost done: nat)
    requires w.Valid() && done <= |stream| && (op.Flush? || op.Alert? || op.Dispatch?)
    modifies w, w.buffer, w.buffer.mem
    ensures w.Valid() && old(w.sent) <= w.sent
    ensures w.buffer.mem == old(w.buffer.mem) || fresh(w.buffer.mem)
    ensures old(Streamed(w, base, stream, done)) ==> Streamed(w, base, stream, done)
    ensures old(w.InOrder()) && old(Orderly(w, op, stream, done)) ==> w.InOrder()
  {
    var ret;
    match op {
      case Flush => ret := w.FlushFlight();
      case Alert(level, desc) => ret := w.SendAlert(level, desc);
      case Dispatch => ret := w.DispatchAlert();
    }
  }

  // Any one call, whether or not it succeeds.
  method Do(w: Writer, op: Op, stream: seq<Byte>, done: nat, ghost base: seq<Byte>) returns (done': nat)
    requires w.Valid() && done <= |stream| <= INT_MAX
    modifies w, w.buffer, w.buffer.mem
    ensures w.Valid() && old(w.sent) <= w.sent && done <= done' <= |stream|
    ensures w.buffer.mem == old(w.buffer.mem) || fresh(w.buffer.mem)
    ensures old(Streamed(w, base, stream, done)) ==> Streamed(w, base, stream, done')
    ensures old(w.InOrder()) && old(Orderly(w, op, stream, done)) ==> w.InOrder()
  {
    done' := done;
    match op {
      case Data(address) => done' := WriteRest(w, address, stream, done, base);
      case FragmentSize(n) => w.SetMaxSendFragment(n);
      case NewCipher(overhead, alignPrefix) =>
        if overhead <= MAX_SEAL_OVERHEAD {
          w.SetWriteState(overhead, alignPrefix);
        }
      case Flush => Push(w, op, base, stream, done);
      case Alert(_, _) => Push(w, op, base, stream, done);
      case Dispatch => Push(w, op, base, stream, done);
      case _ =>
        if w.flightOffset == 0 {
          Queue(w, op, base, stream, done);
        }
    }
  }

  // Any run of calls, with any failures. What is sealed of application data is exactly as much of the
  // stream as the writer has come to, each byte once and in order, and at least what the caller was told
  // is written. As long as no call makes a buffer of a size that can lose its place, the wire, the write
  // buffer and the rest of the flight are all that was sealed, in that order.
  method Run(w: Writer, ops: seq<Op>, stream: seq<Byte>) returns (done: nat, ghost orderly: bool)
    requires w.Valid() && |stream| <= INT_MAX && Streamed(w, Plain(w.log, RT_APPLICATION_DATA), stream, 0)
    modifies w, w.buffer, w.buffer.mem
    ensures w.Valid() && old(w.sent) <= w.sent && done <= |stream|
    ensures done + w.wnum + w.PendingApp() <= |stream|
    ensures Plain(w.log, RT_APPLICATION_DATA)
            == old(Plain(w.log, RT_APPLICATION_DATA)) + stream[..done + w.wnum + w.PendingApp()]
    ensures old(w.InOrder()) && orderly ==> w.InOrder()
    ensures old(w.InOrder()) && orderly && w.flight == None && w.buffer.size == 0 ==> w.sent == Bytes(w.log)
  {
    done, orderly := 0, true;
    ghost var base := Plain(w.log, RT_APPLICATION_DATA);
    var i := 0;
    while i < |ops|
      invariant 0 <= i <= |ops| && w.Valid() && old(w.sent) <= w.sent
      invariant w.buffer.mem == old(w.buffer.mem) || fresh(w.buffer.mem)
      invariant Streamed(w, base, stream, done)
      invariant old(w.InOrder()) && orderly ==> w.InOrder()
    {
      orderly := orderly && Orderly(w, ops[i], stream, done);
      done := Do(w, ops[i], stream, done, base);
      i := i + 1;
    }
    StreamMovesOn(w.log, base, stream, done, w.wnum + w.PendingApp());
  }
}
