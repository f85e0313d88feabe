// The TLS write path under non-blocking I/O: application data and alerts go through the
// write buffer, handshake flights through pending_flight, and an interrupted write is
// taken up again by the caller. Sealing itself is abstract: it fails, or yields bytes
// within the maximum overhead.

module TlsWriter {
  import opened Wire
  import opened SslBuffers

  const SSL3_RT_HEADER_LENGTH := 5
  const MIN_SEND_FRAGMENT := 512
  const INT_MAX := 0x7fff_ffff
  // Two records' headers, tags and nonces: record splitting can double the overhead.
  const MAX_SEAL_OVERHEAD := 2 * SSL3_RT_HEADER_LENGTH + 2 * (64 + 16)

  datatype Sealed = Sealed(typ: nat, plain: seq<Byte>, bytes: seq<Byte>)

  ghost function Bytes(log: seq<Sealed>): seq<Byte> {
    if log == [] then [] else Bytes(log[..|log| - 1]) + log[|log| - 1].bytes
  }

  // What was sealed as one record type, in order.
  ghost function Plain(log: seq<Sealed>, typ: nat): seq<Byte> {
    if log == [] then []
    else
      var last := log[|log| - 1];
      Plain(log[..|log| - 1], typ) + if last.typ == typ then last.plain else []
  }

  lemma {:induction false} SealedOneMore(log: seq<Sealed>, r: Sealed, typ: nat)
    ensures Bytes(log + [r]) == Bytes(log) + r.bytes
    ensures Plain(log + [r], typ) == Plain(log, typ) + if r.typ == typ then r.plain else []
  {
    assert (log + [r])[..|log|] == log;
  }

  // One record more, of the given type and plaintext.
  ghost predicate SealsOne(before: seq<Sealed>, after: seq<Sealed>, typ: nat, plain: seq<Byte>) {
    |after| > 0 && after == before + [Sealed(typ, plain, after[|after| - 1].bytes)]
  }

  // The wire, then the write buffer, then the rest of the flight: the records as sealed.
  ghost predicate Laid(log: seq<Sealed>, sent: seq<Byte>, contents: seq<Byte>, tail: seq<Byte>) {
    Bytes(log) == sent + contents + tail
  }

  lemma {:induction false} LaidAfterWrite(log: seq<Sealed>, sent: seq<Byte>, contents: seq<Byte>, tail: seq<Byte>,
                                          n: nat)
    requires n <= |contents|
    ensures Laid(log, sent, contents, tail) <==> Laid(log, sent + contents[..n], contents[n..], tail)
  {
    assert sent + contents == sent + contents[..n] + contents[n..];
  }

  lemma {:induction false} LaidAfterFlightWrite(log: seq<Sealed>, sent: seq<Byte>, tail: seq<Byte>, n: nat)
    requires n <= |tail|
    ensures Laid(log, sent, [], tail) <==> Laid(log, sent + tail[..n], [], tail[n..])
  {
    assert sent + [] + tail == sent + tail[..n] + [] + tail[n..];
  }

  lemma {:induction false} LaidAfterFlightMove(log: seq<Sealed>, sent: seq<Byte>, tail: seq<Byte>)
    ensures Laid(log, sent, [], tail) <==> Laid(log, sent, tail, [])
  {
    assert sent + [] + tail == sent + tail + [];
  }

  lemma {:induction false} LaidAfterSeal(log: seq<Sealed>, sent: seq<Byte>, contents: seq<Byte>, tail: seq<Byte>,
                                         r: Sealed)
    ensures Laid(log, sent, contents, tail) ==> Laid(log + [r], sent, contents, tail + r.bytes)
    ensures Laid(log, sent, contents, tail) && tail == [] ==> Laid(log + [r], sent, contents + r.bytes, [])
  {
    SealedOneMore(log, r, r.typ);
    assert sent + contents + tail + r.bytes == sent + contents + (tail + r.bytes);
    assert tail == [] ==> sent + contents + tail + r.bytes == sent + (contents + r.bytes) + [];
  }

  datatype Pending = Pending(tot: nat, ret: nat, typ: nat, buf: nat)

  // What was sealed as one record type is base and then the first n bytes of input.
  ghost predicate Accounted(log: seq<Sealed>, typ: nat, base: seq<Byte>, input: seq<Byte>, n: nat) {
    n <= |input| && Plain(log, typ) == base + input[..n]
  }

  lemma {:induction false} AccountedOneMore(log: seq<Sealed>, after: seq<Sealed>, typ: nat, base: seq<Byte>,
                                            input: seq<Byte>, n: nat, chunk: seq<Byte>)
    requires n + |chunk| <= |input| && chunk == input[n..n + |chunk|]
    requires SealsOne(log, after, typ, chunk)
    ensures Accounted(log, typ, base, input, n) ==> Accounted(after, typ, base, input, n + |chunk|)
  {
    SealedOneMore(log, after[|after| - 1], typ);
    assert base + input[..n] + chunk == base + input[..n + |chunk|];
  }

  // One round of a call: the pending bytes p become q and what was written, or the chunk does.
  ghost predicate Wrote(log: seq<Sealed>, after: seq<Sealed>, typ: nat, chunk: seq<Byte>, p: nat, q: nat,
                        written: nat) {
    || (after == log && q + written == p)
    || (SealsOne(log, after, typ, chunk) && p == 0 && q + written == |chunk|)
  }

  lemma {:induction false} ChunkAccounted(log: seq<Sealed>, after: seq<Sealed>, typ: nat, base: seq<Byte>,
                                          input: seq<Byte>, tot: nat, chunk: seq<Byte>, p: nat, q: nat, written: nat)
    requires tot + |chunk| <= |input| && chunk == input[tot..tot + |chunk|]
    requires Wrote(log, after, typ, chunk, p, q, written)
    ensures Accounted(log, typ, base, input, tot + p) ==> Accounted(after, typ, base, input, tot + written + q)
  {
    if after != log {
      AccountedOneMore(log, after, typ, base, input, tot, chunk);
    }
  }

  lemma ChunkOf(msg: seq<Byte>, n: nat, k: nat)
    requires n + k <= |msg|
    ensures msg[n..][..k] == msg[n..n + k] && msg[n..][k..] == msg[n + k..]
  {
  }

  // Every later record is of this type and no longer than the limit.
  ghost predicate Extends(before: seq<Sealed>, after: seq<Sealed>, typ: nat, limit: nat) {
    && before <= after
    && forall i :: |before| <= i < |after| ==> after[i].typ == typ && |after[i].plain| <= limit
  }

  // Every later record is as long as the limit, or every one but the last.
  ghost predicate Filled(before: seq<Sealed>, after: seq<Sealed>, limit: nat) {
    forall i :: |before| <= i < |after| ==> |after[i].plain| == limit
  }

  ghost predicate FilledButLast(before: seq<Sealed>, after: seq<Sealed>, limit: nat) {
    forall i :: |before| <= i < |after| - 1 ==> |after[i].plain| == limit
  }

  lemma FilledOneMore(before: seq<Sealed>, log: seq<Sealed>, after: seq<Sealed>, typ: nat, limit: nat,
                      chunk: seq<Byte>)
    requires Filled(before, log, limit) && (log == after || SealsOne(log, after, typ, chunk))
    ensures FilledButLast(before, after, limit)
    ensures |chunk| == limit ==> Filled(before, after, limit)
  {
  }

  lemma ExtendsOneMore(before: seq<Sealed>, log: seq<Sealed>, after: seq<Sealed>, typ: nat, limit: nat,
                       chunk: seq<Byte>)
    requires Extends(before, log, typ, limit) && SealsOne(log, after, typ, chunk) && |chunk| <= limit
    ensures Extends(before, after, typ, limit) && |after| > |before|
  {
  }

  // A buffer of 65530 to 65535 bytes that is written out in two parts: whatever was sealed, there is a
  // place for the buffer and memory in front of its contents with which the wire goes out of order.
  lemma {:induction false} WireOrderLost(log: seq<Sealed>, sent: seq<Byte>, contents: seq<Byte>, headerLen: nat)
    returns (address: nat, mem: seq<Byte>, n: nat)
    requires Laid(log, sent, contents, [])
    requires |contents| + SSL3_ALIGN_PAYLOAD - 1 > UINT16 && |contents| < UINT16
    ensures var offset := AlignedOffset(address, headerLen);
            && |mem| == offset + |contents| && View(mem, offset, |contents|) == contents
            && CanTake([n, 1], |contents|) && |Taken(mem, offset, |contents|, [n, 1])| == n + 1
            && forall rest: seq<Byte> :: !Laid(log, sent + Taken(mem, offset, |contents|, [n, 1]), rest, [])
  {
    var offset := SSL3_ALIGN_PAYLOAD - 1;
    address := SSL3_ALIGN_PAYLOAD * (headerLen + 1) - headerLen - offset;
    n := UINT16 - offset;
    var gap := seq(offset, i => if contents[n] == 0 then 1 else 0);
    mem := gap + contents;
    assert AlignedOffset(address, headerLen) == offset;
    TwoParts(mem, offset, |contents|, n);
    assert mem[offset + n] == contents[n] != mem[0];
    OutOfOrder(log, sent, contents, Taken(mem, offset, |contents|, [n, 1]), n);
  }

  // A byte that is not the one laid out for its place.
  lemma {:induction false} OutOfOrder(log: seq<Sealed>, sent: seq<Byte>, contents: seq<Byte>, taken: seq<Byte>, n: nat)
    requires Laid(log, sent, contents, []) && n < |contents| && n < |taken| && taken[n] != contents[n]
    ensures forall rest: seq<Byte> :: !Laid(log, sent + taken, rest, [])
  {
    forall rest: seq<Byte>
      ensures !Laid(log, sent + taken, rest, [])
    {
      assert (sent + contents + [])[|sent| + n] == contents[n];
      assert (sent + taken + rest + [])[|sent| + n] == taken[n];
    }
  }

  lemma {:induction false} TwoParts(mem: seq<Byte>, offset: nat, size: nat, n: nat)
    requires offset + size <= |mem| && offset + n == UINT16 && 0 < n < size
    ensures CanTake([n, 1], size) && Taken(mem, offset, size, [n, 1]) == View(mem, offset, n) + [mem[0]]
  {
    assert [n, 1][1..] == [1] && [1][1..] == [];
    assert Advanced(offset, n) == 0;
    var rest := Taken(mem, 0, size - n, [1]);
    assert rest == View(mem, 0, 1) + Taken(mem, Advanced(0, 1), size - n - 1, []);
    assert rest == [mem[0]];
  }

  // A buffer for w bytes is made only when the one there is too small, and is safe by SafeIfRoom.
  predicate Room(w: nat, cap: nat) {
    w <= cap || w + SSL3_ALIGN_PAYLOAD - 1 <= UINT16 || w >= UINT16
  }

  class Writer {
    const buffer: SslBuffer
    var flight: Option<seq<Byte>>
    var flightOffset: nat
    var wnum: nat
    var wpend: Pending
    var wpendPending: bool
    var maxSendFragment: nat
    var overhead: nat
    var alignPrefix: nat
    var partialWrite: bool
    var movingBuffer: bool
    var shutdown: bool
    var alertDispatch: bool
    var sendAlert: seq<Byte>
    const alertAddress: nat
    ghost var log: seq<Sealed>
    ghost var sent: seq<Byte>
    ghost var flushed: nat  // how much of what was sent the transport has flushed
    ghost var failures: nat // how often the cipher or the transport has failed

    ghost predicate Valid()
      reads this, buffer
    {
      && buffer.Valid()
      && (if flight.Some? then flightOffset <= |flight.value| else flightOffset == 0)
      && MIN_SEND_FRAGMENT <= maxSendFragment <= MAX_PLAIN_LENGTH
      && overhead <= MAX_SEAL_OVERHEAD
      && wnum <= INT_MAX
      && (wpendPending ==> 0 < wpend.tot == wpend.ret <= MAX_PLAIN_LENGTH)
      && |sendAlert| == 2
    }

    ghost function FlightTail(): seq<Byte>
      requires Valid()
      reads this, buffer
    {
      if flight.Some? then flight.value[flightOffset..] else []
    }

    ghost predicate InOrder()
      requires Valid()
      reads this, buffer, buffer.mem
    {
      && Laid(log, sent, buffer.Contents(), FlightTail())
      && buffer.Tame()
    }

    // The write buffer can take the rest of the flight and a record of n bytes without a new buffer
    // that could lose its place.
    ghost predicate Roomy(n: nat)
      requires Valid()
      reads this, buffer
    {
      Room(|FlightTail()| + n + overhead, buffer.cap)
    }

    // What keeps the wire in order in do_ssl3_write of n bytes: it makes no buffer, or a safe one.
    ghost predicate KeepsOrder(n: nat)
      requires Valid()
      reads this, buffer
    {
      wpendPending || n == 0 || n > MAX_PLAIN_LENGTH || buffer.size > 0 || Roomy(n)
    }

    // The bytes of the next record of a call of length len that has come to tot.
    function NextChunk(len: nat, tot: nat): nat
      reads this
    {
      if len <= tot then 0 else if len - tot > maxSendFragment then maxSendFragment else len - tot
    }

    // The same for a whole call: only its first new record can meet a flight.
    ghost predicate CallKeepsOrder(len: nat, tot: nat)
      requires Valid()
      reads this, buffer
    {
      if wpendPending then
        var n := NextChunk(len, tot + wpend.ret);
        partialWrite || n == 0 || Room(|FlightTail()| + n + overhead, 0)
      else KeepsOrder(NextChunk(len, tot))
    }

    ghost function PendingApp(): nat
      reads this
    {
      if wpendPending && wpend.typ == RT_APPLICATION_DATA then wpend.ret else 0
    }

    // The application data sealed so far is base and then the start of the caller's bytes that
    // wnum and the pending record account for.
    ghost predicate Started(base: seq<Byte>, input: seq<Byte>)
      reads this
    {
      Reached(base, input, wnum)
    }

    ghost predicate Reached(base: seq<Byte>, input: seq<Byte>, tot: nat)
      reads this
    {
      Accounted(log, RT_APPLICATION_DATA, base, input, tot + PendingApp())
    }

    constructor (alertAddress: nat)
      ensures Valid() && InOrder() && log == [] && fresh(buffer) && fresh(buffer.mem)
    {
      buffer := new SslBuffer();
      flight, flightOffset, wnum, wpendPending := None, 0, 0, false;
      wpend := Pending(0, 0, 0, 0);
      maxSendFragment, overhead, alignPrefix := MAX_PLAIN_LENGTH, SSL3_RT_HEADER_LENGTH, SSL3_RT_HEADER_LENGTH;
      partialWrite, movingBuffer, shutdown, alertDispatch, sendAlert := false, false, false, false, [0, 0];
      this.alertAddress := alertAddress;
      log, sent, flushed, failures := [], [], 0, 0;
    }

    method SetMaxSendFragment(n: nat)
      requires Valid()
      modifies this`maxSendFragment
      ensures Valid() && (old(InOrder()) ==> InOrder())
      ensures maxSendFragment
              == if n < MIN_SEND_FRAGMENT then MIN_SEND_FRAGMENT
                 else if n > MAX_PLAIN_LENGTH then MAX_PLAIN_LENGTH else n
    {
      maxSendFragment := if n < MIN_SEND_FRAGMENT then MIN_SEND_FRAGMENT
                         else if n > MAX_PLAIN_LENGTH then MAX_PLAIN_LENGTH else n;
    }

    // A stream transport: a write takes some of the bytes, from the front, or fails.
    method BioWrite(data: seq<Byte>) returns (ret: int)
      requires |data| > 0
      modifies this`sent, this`failures
      ensures ret <= |data|
      ensures sent == if ret > 0 then old(sent) + data[..ret] else old(sent)
      ensures failures == old(failures) + if ret > 0 then 0 else 1
    {
      ret := *;
      if ret > |data| {
        ret := |data|;
      }
      if ret > 0 {
        sent := sent + data[..ret];
      } else {
        failures := failures + 1;
      }
    }

    method BioFlush() returns (ret: int)
      modifies this`flushed, this`failures
      ensures failures == old(failures) + if ret > 0 then 0 else 1
      ensures flushed == if ret > 0 then |sent| else old(flushed)
    {
      ret := *;
      if ret <= 0 {
        failures := failures + 1;
      } else {
        flushed := |sent|;
      }
    }

    // tls_seal_record, by its contract.
    method SealRecord(typ: nat, plain: seq<Byte>, maxOut: nat) returns (ok: bool, out: seq<Byte>)
      modifies this`log, this`failures
      ensures ok ==> |out| <= maxOut && |out| <= |plain| + overhead && log == old(log) + [Sealed(typ, plain, out)]
      ensures !ok ==> log == old(log)
      ensures failures == old(failures) + if ok then 0 else 1
    {
      out := *;
      ok := *;
      if |out| > maxOut || |out| > |plain| + overhead {
        ok := false;
      }
      if ok {
        log := log + [Sealed(typ, plain, out)];
      } else {
        failures := failures + 1;
      }
    }

    // tls_write_buffer_flush.
    method WriteBufferFlush() returns (ret: int)
      requires Valid()
      modifies this`sent, this`failures, buffer
      ensures Valid() && old(sent) <= sent
      ensures old(InOrder()) ==> InOrder()
      ensures buffer.mem == old(buffer.mem) || fresh(buffer.mem)
      ensures ret == 1 || ret <= 0
      ensures ret == 1 <==> buffer.size == 0
      ensures ret == 1 <==> failures == old(failures)
      ensures ret == 1 ==> buffer.cap == 0
    {
      ghost var mem := buffer.mem;
      while buffer.size != 0
        invariant Valid() && old(sent) <= sent && buffer.mem == mem && failures == old(failures)
        invariant old(InOrder()) ==> InOrder()
        decreases buffer.size
      {
        ghost var sent0, contents := sent, buffer.Contents();
        ret := BioWrite(buffer.mem[buffer.offset..buffer.offset + buffer.size]);
        if ret <= 0 {
          return;
        }
        buffer.Consume(ret);
        LaidAfterWrite(log, sent0, contents, FlightTail(), ret);
      }
      buffer.Clear();
      ret := 1;
    }

    // The record under way is not the one to be written.
    predicate BadRetry(typ: nat, address: nat, len: nat)
      reads this
    {
      wpend.typ != typ || wpend.tot > len || (!movingBuffer && wpend.buf != address)
    }

    // A record of n bytes behind the rest of the flight is more than a buffer can hold.
    ghost predicate TooMuch(n: nat)
      requires Valid()
      reads this, buffer
    {
      |FlightTail()| + n + overhead >= UINT16
    }

    // Why do_ssl3_write cannot write these bytes, whatever the cipher and the transport do.
    ghost predicate Refused(typ: nat, len: nat, address: nat)
      requires Valid()
      reads this, buffer
    {
      if wpendPending then BadRetry(typ, address, len)
      else len == 0 || len > MAX_PLAIN_LENGTH || buffer.size > 0 || TooMuch(len)
    }

    // The same for a whole call of length len that has come to tot.
    ghost predicate CallRefused(len: nat, tot: nat, address: nat)
      requires Valid()
      reads this, buffer
    {
      || Refused(RT_APPLICATION_DATA, NextChunk(len, tot), address + tot)
      || (wpendPending && !partialWrite && NextChunk(len, tot + wpend.ret) > 0
          && TooMuch(NextChunk(len, tot + wpend.ret)))
    }

    // ssl3_write_pending.
    method WritePending(typ: nat, address: nat, len: nat) returns (ret: int)
      requires Valid() && wpendPending
      modifies this`sent, this`failures, this`wpendPending, buffer
      ensures Valid() && old(sent) <= sent
      ensures old(InOrder()) ==> InOrder()
      ensures buffer.mem == old(buffer.mem) || fresh(buffer.mem)
      ensures BadRetry(typ, address, len) ==> ret == -1 && unchanged(this) && unchanged(buffer)
      ensures ret <= 0 <==> BadRetry(typ, address, len) || failures != old(failures)
      ensures ret > 0 ==> wpend.typ == typ && wpend.tot <= len && !wpendPending && ret == wpend.ret && buffer.cap == 0
      ensures ret <= 0 ==> wpendPending
    {
      if wpend.tot > len || (!movingBuffer && wpend.buf != address) || wpend.typ != typ {
        return -1;
      }
      ret := WriteBufferFlush();
      if ret <= 0 {
        return;
      }
      wpendPending := false;
      ret := wpend.ret;
    }

    // The part of do_ssl3_write that moves the rest of the flight into an empty write buffer.
    method MoveFlight()
      requires Valid() && buffer.size == 0 && |FlightTail()| <= buffer.cap
      modifies this`flight, this`flightOffset, buffer`size, buffer.mem
      ensures Valid() && flight == None
      ensures buffer.Contents() == old(FlightTail()) && buffer.size == |old(FlightTail())|
    {
      if flight.Some? {
        var tail := flight.value[flightOffset..];
        buffer.Append(tail);
        flight, flightOffset := None, 0;
      }
    }

    // do_ssl3_write, up to where there is room in the buffer for the record behind the flight.
    method MakeRoom(n: nat) returns (ok: bool)
      requires Valid() && buffer.size == 0
      modifies this`flight, this`flightOffset, buffer, buffer.mem
      ensures Valid() && (old(Roomy(n)) && old(InOrder()) ==> InOrder())
      ensures buffer.mem == old(buffer.mem) || fresh(buffer.mem)
      ensures |FlightTail()| <= |old(FlightTail())|
      ensures ok <==> !old(TooMuch(n))
      ensures !ok ==> unchanged(this) && unchanged(buffer)
      ensures ok ==> flight == None && buffer.cap - buffer.size >= n + overhead
    {
      var flightLen := if flight.Some? then |flight.value| - flightOffset else 0;
      ok := buffer.EnsureCap(flightLen + alignPrefix, n + overhead + flightLen);
      if !ok {
        return;
      }
      ghost var tail := FlightTail();
      MoveFlight();
      LaidAfterFlightMove(log, sent, tail);
    }

    // do_ssl3_write, up to where the new record is pending.
    method SealIntoBuffer(typ: nat, input: seq<Byte>, address: nat) returns (ok: bool)
      requires Valid() && !wpendPending && buffer.size == 0 && 0 < |input| <= MAX_PLAIN_LENGTH
      modifies this`flight, this`flightOffset, this`log, this`failures, this`wpend, this`wpendPending
      modifies buffer, buffer.mem
      ensures Valid() && (old(Roomy(|input|)) && old(InOrder()) ==> InOrder())
      ensures buffer.mem == old(buffer.mem) || fresh(buffer.mem)
      ensures |FlightTail()| <= |old(FlightTail())|
      ensures wpendPending == ok && (ok ==> wpend == Pending(|input|, |input|, typ, address) && flight == None)
      ensures if ok then SealsOne(old(log), log, typ, input) else log == old(log)
      ensures ok <==> !old(TooMuch(|input|)) && failures == old(failures)
      ensures old(TooMuch(|input|)) ==> unchanged(this) && unchanged(buffer)
    {
      ok := MakeRoom(|input|);
      if !ok {
        return;
      }
      ok := SealBehind(typ, input);
      if ok {
        wpend := Pending(|input|, |input|, typ, address);
        wpendPending := true;
      }
    }

    // The record is sealed into the rest of the buffer.
    method SealBehind(typ: nat, input: seq<Byte>) returns (ok: bool)
      requires Valid() && flight == None
      modifies this`log, this`failures, buffer`size, buffer.mem
      ensures Valid() && (old(InOrder()) ==> InOrder())
      ensures if ok then SealsOne(old(log), log, typ, input) else log == old(log)
      ensures ok <==> failures == old(failures)
    {
      ghost var log0, contents := log, buffer.Contents();
      var bytes;
      ok, bytes := SealRecord(typ, input, buffer.cap - buffer.size);
      if ok {
        LaidAfterSeal(log0, sent, contents, [], Sealed(typ, input, bytes));
        buffer.Append(bytes);
      }
    }

    // do_ssl3_write.
    method DoWrite(typ: nat, input: seq<Byte>, address: nat) returns (ret: int)
      requires Valid()
      modifies this`flight, this`flightOffset, this`log, this`sent, this`failures, this`wpend, this`wpendPending
      modifies buffer, buffer.mem
      ensures Valid() && old(sent) <= sent
      ensures old(InOrder()) && old(KeepsOrder(|input|)) ==> InOrder()
      ensures buffer.mem == old(buffer.mem) || fresh(buffer.mem)
      // it fails when it cannot write the bytes, and otherwise only if a seal or a write of this call failed
      ensures ret <= 0 <==> old(Refused(typ, |input|, address)) || failures != old(failures)
      ensures old(Refused(typ, |input|, address)) ==> unchanged(this) && unchanged(buffer)
      // a pending record is only flushed
      ensures old(wpendPending) ==> unchanged(`log, `wpend, `flight, `flightOffset)
      ensures old(wpendPending) && ret > 0 ==> wpend.typ == typ && ret == wpend.ret <= |input|
      // otherwise the bytes are sealed as one record, or nothing is
      ensures !old(wpendPending) && (ret > 0 || wpendPending) ==>
                && SealsOne(old(log), log, typ, input)
                && wpend == Pending(|input|, |input|, typ, address)
      ensures !old(wpendPending) && ret <= 0 && !wpendPending ==> log == old(log)
      ensures ret > 0 ==> !wpendPending && ret == wpend.ret && buffer.cap == 0
      ensures !old(wpendPending) && ret > 0 ==> flight == None
      ensures ret <= 0 && old(wpendPending) ==> wpendPending
      // bytes a failed attempt left in the buffer block every later record
      ensures !old(wpendPending) && old(buffer.size) > 0 ==> ret == -1
      ensures |FlightTail()| <= |old(FlightTail())|
    {
      if wpendPending {
        ret := WritePending(typ, address, |input|);
        return;
      }
      if |input| > MAX_PLAIN_LENGTH || buffer.size > 0 {
        return -1;
      }
      if input == [] {
        return 0;
      }
      var ok := SealIntoBuffer(typ, input, address);
      if !ok {
        return -1;
      }
      ret := WritePending(typ, address, |input|);
    }

    // do_ssl3_write for the bytes at hand in ssl3_write_app_data's loop.
    method WriteChunk(input: seq<Byte>, tot: nat, nw: nat, address: nat) returns (ret: int)
      requires Valid() && tot <= |input| && nw == NextChunk(|input|, tot)
      modifies this`flight, this`flightOffset, this`log, this`sent, this`failures, this`wpend, this`wpendPending
      modifies buffer, buffer.mem
      ensures Valid() && old(sent) <= sent && (ret > 0 ==> !wpendPending && ret <= nw)
      ensures old(InOrder()) && old(CallKeepsOrder(|input|, tot)) ==> InOrder()
      ensures old(CallKeepsOrder(|input|, tot)) && ret > 0 ==> partialWrite || CallKeepsOrder(|input|, tot + ret)
      ensures buffer.mem == old(buffer.mem) || fresh(buffer.mem)
      ensures Wrote(old(log), log, RT_APPLICATION_DATA, input[tot..tot + nw], old(PendingApp()), PendingApp(),
                    if ret > 0 then ret else 0)
      ensures ret > 0 <==> !old(Refused(RT_APPLICATION_DATA, nw, address + tot)) && failures == old(failures)
      ensures ret > 0 ==>
                old(CallRefused(|input|, tot, address))
                == (tot + ret < |input| && !partialWrite && CallRefused(|input|, tot + ret, address))
    {
      ret := DoWrite(RT_APPLICATION_DATA, input[tot..tot + nw], address + tot);
    }

    // One round of that loop; before is where the call's own records begin.
    method WriteAppChunk(input: seq<Byte>, tot: nat, nw: nat, address: nat, ghost base: seq<Byte>,
                         ghost before: seq<Sealed>) returns (ret: int)
      requires Valid() && tot <= |input| && nw == NextChunk(|input|, tot) && Filled(before, log, maxSendFragment)
      modifies this`flight, this`flightOffset, this`log, this`sent, this`failures, this`wpend, this`wpendPending
      modifies buffer, buffer.mem
      ensures Valid() && old(sent) <= sent && (ret > 0 ==> !wpendPending && ret <= nw)
      ensures old(InOrder()) && old(CallKeepsOrder(|input|, tot)) ==> InOrder()
      ensures old(CallKeepsOrder(|input|, tot)) && ret > 0 ==> partialWrite || CallKeepsOrder(|input|, tot + ret)
      ensures buffer.mem == old(buffer.mem) || fresh(buffer.mem)
      ensures old(Reached(base, input, tot)) ==> Reached(base, input, tot + if ret > 0 then ret else 0)
      ensures ret <= 0 ==> old(CallRefused(|input|, tot, address)) || failures != old(failures)
      ensures ret > 0 ==> failures == old(failures)
      ensures ret > 0 ==>
                old(CallRefused(|input|, tot, address))
                == (tot + ret < |input| && !partialWrite && CallRefused(|input|, tot + ret, address))
      ensures FilledButLast(before, log, maxSendFragment)
      ensures ret > 0 && tot + ret < |input| && !partialWrite ==> Filled(before, log, maxSendFragment)
    {
      ret := WriteChunk(input, tot, nw, address);
      ghost var chunk, written := input[tot..tot + nw], if ret > 0 then ret else 0;
      ChunkAccounted(old(log), log, RT_APPLICATION_DATA, base, input, tot, chunk, old(PendingApp()), PendingApp(),
                     written);
      FilledOneMore(before, old(log), log, RT_APPLICATION_DATA, maxSendFragment, chunk);
    }

    // The loop of ssl3_write_app_data, from tot on; done is what wnum is to be after a failure
    // and what is returned after a success.
    method WriteAppChunks(input: seq<Byte>, tot: nat, address: nat, ghost base: seq<Byte>)
      returns (ret: int, done: nat)
      requires Valid() && tot <= |input|
      modifies this`flight, this`flightOffset, this`log, this`sent, this`failures, this`wpend, this`wpendPending
      modifies buffer, buffer.mem
      ensures Valid() && old(sent) <= sent
      ensures old(InOrder()) && old(CallKeepsOrder(|input|, tot)) ==> InOrder()
      ensures buffer.mem == old(buffer.mem) || fresh(buffer.mem)
      ensures tot <= done <= |input| && (old(Reached(base, input, tot)) ==> Reached(base, input, done))
      ensures ret > 0 ==> !wpendPending && tot < done && (!partialWrite ==> done == |input|)
      ensures ret <= 0 <==> old(CallRefused(|input|, tot, address)) || failures != old(failures)
      ensures FilledButLast(old(log), log, maxSendFragment)
    {
      done := tot;
      ghost var mem, before := buffer.mem, log;
      ghost var fine, begun := InOrder() && CallKeepsOrder(|input|, tot), Reached(base, input, tot);
      ghost var refused := CallRefused(|input|, tot, address);
      while true
        invariant Valid() && old(sent) <= sent && tot <= done <= |input|
        invariant fine ==> InOrder() && CallKeepsOrder(|input|, done)
        invariant buffer.mem == mem || fresh(buffer.mem)
        invariant begun ==> Reached(base, input, done)
        invariant CallRefused(|input|, done, address) == refused && failures == old(failures)
        invariant Filled(before, log, maxSendFragment)
        decreases |input| - done
      {
        var n := |input| - done;
        var nw := NextChunk(|input|, done);
        ret := WriteAppChunk(input, done, nw, address, base, before);
        if ret <= 0 {
          return;
        }
        done := done + ret;
        if ret == n || partialWrite {
          return;
        }
      }
    }

    // ssl3_write_app_data. The address stands for the caller's pointer, base for what its
    // earlier calls have had sealed.
    method WriteAppData(input: seq<Byte>, len: int, address: nat, ghost base: seq<Byte>) returns (ret: int)
      requires Valid() && (len >= 0 ==> |input| == len) && |input| <= INT_MAX
      modifies this`flight, this`flightOffset, this`log, this`sent, this`failures, this`wpend, this`wpendPending
      modifies this`wnum, buffer, buffer.mem
      ensures Valid() && old(sent) <= sent
      ensures old(InOrder()) && old(wnum <= |input| ==> CallKeepsOrder(|input|, wnum)) ==> InOrder()
      ensures buffer.mem == old(buffer.mem) || fresh(buffer.mem)
      // success: the first ret bytes, and nothing else, are sealed by now, and no call is under way
      ensures ret > 0 ==> !wpendPending && wnum == 0 && ret <= |input| && (!partialWrite ==> ret == |input|)
      ensures ret > 0 && old(Started(base, input)) ==> Accounted(log, RT_APPLICATION_DATA, base, input, ret)
      // failure: a call with the same bytes takes up where this one stopped
      ensures ret <= 0 && len >= 0 && old(Started(base, input)) ==> Started(base, input)
      // a call with fewer bytes than are already written is refused, and what was written is forgotten
      ensures !shutdown && len < old(wnum) ==> ret == -1 && wnum == 0 && log == old(log)
      // every new record but the last is as long as allowed
      ensures FilledButLast(old(log), log, maxSendFragment)
      // after a shutdown nothing is written; otherwise a call fails only for what it asks or for a failure below
      ensures shutdown ==> ret == -1 && unchanged(this) && unchanged(buffer)
      ensures !shutdown && len >= old(wnum) ==>
                (ret <= 0 <==> old(CallRefused(|input|, wnum, address)) || failures != old(failures))
    {
      if shutdown {
        return -1;
      }
      var tot := TakeCount(input, base);
      if len < tot {
        return -1;
      }
      ret := WriteAppFrom(input, tot, address, base);
    }

    // How far earlier calls have come is taken over from wnum, which nothing else depends on.
    method TakeCount(ghost input: seq<Byte>, ghost base: seq<Byte>) returns (tot: nat)
      requires Valid()
      modifies this`wnum
      ensures Valid() && tot == old(wnum) && wnum == 0 && InOrder() == old(InOrder())
      ensures CallKeepsOrder(|input|, tot) == old(CallKeepsOrder(|input|, wnum))
      ensures Reached(base, input, tot) == old(Started(base, input))
      ensures forall a: nat {:trigger CallRefused(|input|, tot, a)} ::
                CallRefused(|input|, tot, a) == old(CallRefused(|input|, wnum, a))
    {
      tot := wnum;
      wnum := 0;
    }

    // The rest of ssl3_write_app_data, from where earlier calls have come to.
    method WriteAppFrom(input: seq<Byte>, tot: nat, address: nat, ghost base: seq<Byte>) returns (ret: int)
      requires Valid() && tot <= |input| <= INT_MAX && wnum == 0
      modifies this`flight, this`flightOffset, this`log, this`sent, this`failures, this`wpend, this`wpendPending
      modifies this`wnum, buffer, buffer.mem
      ensures Valid() && old(sent) <= sent
      ensures old(InOrder()) && old(CallKeepsOrder(|input|, tot)) ==> InOrder()
      ensures buffer.mem == old(buffer.mem) || fresh(buffer.mem)
      ensures ret > 0 ==> !wpendPending && wnum == 0 && ret <= |input| && (!partialWrite ==> ret == |input|)
      ensures ret > 0 && old(Reached(base, input, tot)) ==> Accounted(log, RT_APPLICATION_DATA, base, input, ret)
      ensures ret <= 0 && old(Reached(base, input, tot)) ==> Started(base, input)
      ensures ret <= 0 <==> old(CallRefused(|input|, tot, address)) || failures != old(failures)
      ensures FilledButLast(old(log), log, maxSendFragment)
    {
      var done;
      ret, done := WriteAppChunks(input, tot, address, base);
      if ret > 0 {
        return done;
      }
      wnum := done;
    }

    // add_record_to_flight.
    method AddRecordToFlight(typ: nat, input: seq<Byte>) returns (ok: bool)
      requires Valid() && flightOffset == 0
      modifies this`flight, this`log, this`failures
      ensures Valid() && flightOffset == 0 && (old(InOrder()) ==> InOrder())
      ensures if ok then flight.Some? && SealsOne(old(log), log, typ, input) else log == old(log)
      ensures ok <==> failures == old(failures)
    {
      if flight.None? {
        flight := Some([]);
      }
      ghost var log0, tail := log, flight.value;
      var out;
      ok, out := SealRecord(typ, input, |input| + overhead);
      if !ok {
        return;
      }
      LaidAfterSeal(log0, sent, buffer.Contents(), tail, Sealed(typ, input, out));
      flight := Some(flight.value + out);
    }

    // ssl3_add_message: the records' plaintexts put together are the message. On failure some
    // of its records may be in the flight already.
    method AddMessage(msg: seq<Byte>, ghost base: seq<Byte>) returns (ok: bool, ghost n: nat)
      requires Valid() && flightOffset == 0 && Plain(log, RT_HANDSHAKE) == base
      modifies this`flight, this`log, this`failures
      ensures Valid() && flightOffset == 0 && (old(InOrder()) ==> InOrder())
      ensures Accounted(log, RT_HANDSHAKE, base, msg, n)
      ensures Extends(old(log), log, RT_HANDSHAKE, maxSendFragment) && FilledButLast(old(log), log, maxSendFragment)
      ensures ok ==> n == |msg| && flight.Some? && |log| > |old(log)|
      ensures ok <==> failures == old(failures)
    {
      var rest := msg;
      n := 0;
      assert msg[..0] == [] && msg[0..] == msg;
      while true
        invariant Valid() && flightOffset == 0 && (old(InOrder()) ==> InOrder())
        invariant n <= |msg| && rest == msg[n..]
        invariant Accounted(log, RT_HANDSHAKE, base, msg, n)
        invariant Extends(old(log), log, RT_HANDSHAKE, maxSendFragment) && Filled(old(log), log, maxSendFragment)
        invariant failures == old(failures)
        decreases |rest|
      {
        ok, rest, n := AddChunk(rest, base, msg, n, old(log));
        if !ok || rest == [] {
          return;
        }
      }
    }

    // One round of that loop.
    method AddChunk(rest: seq<Byte>, ghost base: seq<Byte>, ghost msg: seq<Byte>, ghost n: nat,
                    ghost before: seq<Sealed>)
      returns (ok: bool, rest': seq<Byte>, ghost n': nat)
      requires Valid() && flightOffset == 0 && n <= |msg| && rest == msg[n..]
      requires Accounted(log, RT_HANDSHAKE, base, msg, n)
      requires Extends(before, log, RT_HANDSHAKE, maxSendFragment) && Filled(before, log, maxSendFragment)
      modifies this`flight, this`log, this`failures
      ensures Valid() && flightOffset == 0 && (old(InOrder()) ==> InOrder())
      ensures Accounted(log, RT_HANDSHAKE, base, msg, n')
      ensures Extends(before, log, RT_HANDSHAKE, maxSendFragment) && FilledButLast(before, log, maxSendFragment)
      ensures ok && rest' != [] ==> Filled(before, log, maxSendFragment)
      ensures ok ==> flight.Some? && |log| > |before| && rest' == msg[n'..]
      ensures ok ==> rest' == [] || |rest'| < |rest|
      ensures ok <==> failures == old(failures)
    {
      var chunk := if |rest| > maxSendFragment then rest[..maxSendFragment] else rest;
      ChunkOf(msg, n, |chunk|);
      rest' := rest[|chunk|..];
      ok := AddRecordToFlight(RT_HANDSHAKE, chunk);
      n' := if ok then n + |chunk| else n;
      if ok {
        AccountedOneMore(old(log), log, RT_HANDSHAKE, base, msg, n, chunk);
        ExtendsOneMore(before, old(log), log, RT_HANDSHAKE, maxSendFragment, chunk);
        FilledOneMore(before, old(log), log, RT_HANDSHAKE, maxSendFragment, chunk);
      }
    }

    method AddChangeCipherSpec() returns (ok: bool)
      requires Valid() && flightOffset == 0
      modifies this`flight, this`log, this`failures
      ensures Valid() && flightOffset == 0 && (old(InOrder()) ==> InOrder())
      ensures if ok then flight.Some? && SealsOne(old(log), log, RT_CHANGE_CIPHER_SPEC, [1]) else log == old(log)
      ensures ok <==> failures == old(failures)
    {
      ok := AddRecordToFlight(RT_CHANGE_CIPHER_SPEC, [1]);
    }

    method AddAlert(level: Byte, desc: Byte) returns (ok: bool)
      requires Valid() && flightOffset == 0
      modifies this`flight, this`log, this`failures
      ensures Valid() && flightOffset == 0 && (old(InOrder()) ==> InOrder())
      ensures if ok then flight.Some? && SealsOne(old(log), log, RT_ALERT, [level, desc]) else log == old(log)
      ensures ok <==> failures == old(failures)
    {
      ok := AddRecordToFlight(RT_ALERT, [level, desc]);
    }

    // The loop of ssl3_flush_flight.
    method WriteFlight() returns (ret: int)
      requires Valid() && flight.Some? && buffer.size == 0
      modifies this`flightOffset, this`sent, this`failures
      ensures Valid() && old(sent) <= sent && old(flightOffset) <= flightOffset
      ensures old(InOrder()) ==> InOrder()
      ensures ret == 1 || ret <= 0
      ensures ret == 1 ==> flightOffset == |flight.value|
      ensures ret == 1 <==> failures == old(failures)
    {
      while flightOffset < |flight.value|
        invariant Valid() && old(sent) <= sent
        invariant old(flightOffset) <= flightOffset && failures == old(failures)
        invariant old(InOrder()) ==> InOrder()
        decreases |flight.value| - flightOffset
      {
        ret := WriteFlightPart();
        if ret <= 0 {
          return;
        }
      }
      ret := 1;
    }

    method WriteFlightPart() returns (ret: int)
      requires Valid() && flight.Some? && flightOffset < |flight.value| && buffer.size == 0
      modifies this`flightOffset, this`sent, this`failures
      ensures Valid() && old(sent) <= sent && (old(InOrder()) ==> InOrder())
      ensures flightOffset == old(flightOffset) + if ret > 0 then ret else 0
      ensures ret > 0 <==> failures == old(failures)
    {
      ghost var sent0, tail := sent, FlightTail();
      ret := BioWrite(flight.value[flightOffset..]);
      if ret > 0 {
        flightOffset := flightOffset + ret;
        assert FlightTail() == tail[ret..];
        LaidAfterFlightWrite(log, sent0, tail, ret);
      }
    }

    // ssl3_flush_flight. When it reports success for a flight, all that was ever sealed is on the wire.
    method FlushFlight() returns (ret: int)
      requires Valid()
      modifies this`flight, this`flightOffset, this`sent, this`flushed, this`failures, buffer
      ensures Valid() && old(sent) <= sent
      ensures old(InOrder()) ==> InOrder()
      ensures buffer.mem == old(buffer.mem) || fresh(buffer.mem)
      ensures ret == 1 || ret <= 0
      ensures ret == 1 ==> flight == None
      ensures ret == 1 && old(flight).Some? ==> flushed == |sent|
      ensures ret == 1 && old(flight).Some? && old(InOrder()) ==> sent == Bytes(log)
      ensures ret <= 0 ==> flight == old(flight) && old(flightOffset) <= flightOffset
      ensures old(flight).None? ==> ret == 1 && unchanged(this) && unchanged(buffer)
      // a flight is refused after a shutdown or when it is too long, and otherwise fails only with the transport
      ensures old(flight).Some? && (shutdown || |old(flight).value| > INT_MAX) ==>
                ret == -1 && unchanged(this) && unchanged(buffer)
      ensures old(flight).Some? && !shutdown && |old(flight).value| <= INT_MAX ==>
                (ret <= 0 <==> failures != old(failures))
    {
      if flight.None? {
        return 1;
      }
      if shutdown || |flight.value| > INT_MAX {
        return -1;
      }
      if buffer.size != 0 {
        ret := WriteBufferFlush();
        if ret <= 0 {
          return;
        }
      }
      ret := WriteFlight();
      if ret <= 0 {
        return;
      }
      ret := EndFlight();
    }

    // The end of ssl3_flush_flight, when all is written.
    method EndFlight() returns (ret: int)
      requires Valid() && flight.Some? && flightOffset == |flight.value| && buffer.size == 0
      modifies this`flight, this`flightOffset, this`flushed, this`failures
      ensures Valid() && (old(InOrder()) ==> InOrder())
      ensures if ret == 1 then flight == None && flushed == |sent| else ret == -1 && unchanged(`flight, `flightOffset)
      ensures ret == 1 <==> failures == old(failures)
      ensures ret == 1 && old(InOrder()) ==> sent == Bytes(log)
    {
      ret := BioFlush();
      if ret <= 0 {
        return -1;
      }
      flight, flightOffset := None, 0;
      ret := 1;
    }

    // ssl3_dispatch_alert.
    method DispatchAlert() returns (ret: int)
      requires Valid()
      modifies this`flight, this`flightOffset, this`log, this`sent, this`failures, this`wpend, this`wpendPending
      modifies this`alertDispatch, buffer, buffer.mem
      ensures Valid() && old(sent) <= sent
      ensures old(InOrder()) && old(KeepsOrder(2)) ==> InOrder()
      ensures buffer.mem == old(buffer.mem) || fresh(buffer.mem)
      ensures ret == 1 || ret <= 0
      ensures ret == 1 ==> !alertDispatch && !wpendPending && wpend.typ == RT_ALERT
      ensures ret == 1 && !old(wpendPending) ==> SealsOne(old(log), log, RT_ALERT, sendAlert)
      ensures ret <= 0 ==> alertDispatch == old(alertDispatch)
      ensures ret <= 0 <==> old(Refused(RT_ALERT, 2, alertAddress)) || failures != old(failures)
      ensures old(Refused(RT_ALERT, 2, alertAddress)) ==> unchanged(this) && unchanged(buffer)
      // application data under way stays under way
      ensures Plain(log, RT_APPLICATION_DATA) == Plain(old(log), RT_APPLICATION_DATA)
      ensures PendingApp() == old(PendingApp())
    {
      ret := DoWrite(RT_ALERT, sendAlert, alertAddress);
      if !old(wpendPending) && (ret > 0 || wpendPending) {
        SealedOneMore(old(log), log[|log| - 1], RT_APPLICATION_DATA);
      }
      if ret <= 0 {
        return;
      }
      alertDispatch := false;
      ret := 1;
    }

    // ssl_send_alert: dispatched at once only when nothing is being written.
    method SendAlert(level: Byte, desc: Byte) returns (ret: int)
      requires Valid()
      modifies this`flight, this`flightOffset, this`log, this`sent, this`failures, this`wpend, this`wpendPending
      modifies this`alertDispatch, this`sendAlert, this`shutdown, buffer, buffer.mem
      ensures Valid() && shutdown && old(sent) <= sent
      ensures buffer.mem == old(buffer.mem) || fresh(buffer.mem)
      ensures old(InOrder()) && old(KeepsOrder(2)) ==> InOrder()
      ensures old(shutdown) ==> ret == -1 && unchanged(this) && unchanged(buffer)
      ensures !old(shutdown) ==> sendAlert == [level, desc]
      ensures old(buffer.size) > 0 ==> ret <= 0 && unchanged(`log, `sent, `flight, `flightOffset, `wpend, `wpendPending)
      ensures !old(shutdown) && old(buffer.size) == 0 ==>
                (ret <= 0 <==> old(Refused(RT_ALERT, 2, alertAddress)) || failures != old(failures))
      ensures !old(shutdown) ==> alertDispatch == (ret <= 0)
      ensures PendingApp() == old(PendingApp())
      ensures Plain(log, RT_APPLICATION_DATA) == Plain(old(log), RT_APPLICATION_DATA)
    {
      if shutdown {
        return -1;
      }
      shutdown := true;
      alertDispatch := true;
      sendAlert := [level, desc];
      if buffer.size == 0 {
        ret := DispatchAlert();
      } else {
        ret := -1;
      }
    }

    // A new write cipher, with its own overhead. What is already sealed stays as it is.
    method SetWriteState(newOverhead: nat, newAlignPrefix: nat)
      requires Valid() && newOverhead <= MAX_SEAL_OVERHEAD
      modifies this`overhead, this`alignPrefix
      ensures Valid() && (old(InOrder()) ==> InOrder())
      ensures overhead == newOverhead && alignPrefix == newAlignPrefix
    {
      overhead, alignPrefix := newOverhead, newAlignPrefix;
    }
  }
}
