// pb_ostream_t: bytes into a buffer of limited size, or only a count of them.

module PbOStream {
  import opened Wire
  import opened Words
  import opened PbVarint

  class OStream {
    const buf: array<Byte>
    const sizing: bool      // no callback: bytes are counted, not stored
    const maxSize: nat
    var state: nat          // where in buf the next byte goes
    var bytesWritten: nat

    ghost predicate Valid()
      reads this
    {
      !sizing ==> bytesWritten <= maxSize && state + (maxSize - bytesWritten) <= buf.Length
    }

    ghost function Out(): seq<Byte>
      requires Valid()
      reads this, buf
    {
      if sizing then [] else buf[..state]
    }

    // PB_OSTREAM_SIZING
    constructor Sizing()
      ensures Valid() && sizing && bytesWritten == 0 && fresh(buf)
    {
      buf := new Byte[0];
      sizing, maxSize, state, bytesWritten := true, 0, 0, 0;
    }

    // pb_ostream_from_buffer
    constructor FromBuffer(buf: array<Byte>)
      ensures Valid() && !sizing && bytesWritten == 0 && maxSize == buf.Length && this.buf == buf && state == 0
    {
      this.buf := buf;
      sizing, maxSize, state, bytesWritten := false, buf.Length, 0, 0;
    }

    // The substream of pb_encode_submessage.
    constructor Sub(parent: OStream, size: nat)
      requires parent.Valid() && !parent.sizing && parent.bytesWritten + size <= parent.maxSize
      ensures Valid() && !sizing && bytesWritten == 0 && maxSize == size && buf == parent.buf && state == parent.state
    {
      buf := parent.buf;
      sizing, maxSize, state, bytesWritten := false, size, parent.state, 0;
    }

    // pb_write
    method Write(data: seq<Byte>) returns (ok: bool)
      requires Valid()
      modifies this`state, this`bytesWritten, buf
      ensures Wrote(this, old(bytesWritten), old(Out()), ok, Some(data))
    {
      if !sizing {
        if bytesWritten + |data| > maxSize {
          return false;
        }
        var dest := state;
        state := dest + |data|;
        var i := 0;
        while i < |data|
          modifies buf
          invariant i <= |data|
          invariant buf[..dest] == old(buf[..state])
          invariant buf[dest..dest + i] == data[..i]
        {
          buf[dest + i] := data[i];
          i := i + 1;
        }
        assert buf[..state] == buf[..dest] + buf[dest..dest + i];
      }
      bytesWritten := bytesWritten + |data|;
      return true;
    }

    // pb_write without data, when only the count matters
    method Count(n: nat)
      requires Valid() && sizing
      modifies this`bytesWritten
      ensures Valid() && bytesWritten == old(bytesWritten) + n
    {
      bytesWritten := bytesWritten + n;
    }
  }

  // The operation was to write e, if there is such an encoding: it succeeds exactly when the
  // stream has room, and a sizing stream counts what any other stores.
  ghost predicate Wrote(s: OStream, before: nat, out: seq<Byte>, ok: bool, e: Option<seq<Byte>>)
    reads s, s.buf
  {
    && s.Valid()
    && (ok <==> e.Some? && (s.sizing || before + |e.value| <= s.maxSize))
    && (ok ==> s.bytesWritten == before + |e.value|)
    && (ok && !s.sizing ==> s.Out() == out + e.value)
    && (!ok && !s.sizing ==> out <= s.Out())
  }

  // The top bit of the last byte taken off.
  function ClearedLast(b: seq<Byte>): seq<Byte> {
    if b == [] then [] else b[..|b| - 1] + [b[|b| - 1] % 0x80]
  }

  // Groups written so far, each with its top bit set, and what is left of the value.
  ghost predicate Partly(value: nat, g: seq<Byte>, v: nat) {
    EncodeVarint(value) == if v > 0 then g + EncodeVarint(v) else ClearedLast(g)
  }

  lemma {:induction false} OneMoreGroup(value: nat, g: seq<Byte>, v: nat)
    requires v > 0 && Partly(value, g, v)
    ensures Partly(value, g + [v % 0x80 + 0x80], v / 0x80)
  {
  }

  // After i groups what is left fits in the rest of ten.
  ghost predicate FitsRest(v: nat, i: nat) {
    i <= 10 && v < Pow2(7 * (10 - i))
  }

  lemma {:induction false} OneGroupLess(v: nat, i: nat)
    requires v > 0 && FitsRest(v, i)
    ensures i < 10 && FitsRest(v / 0x80, i + 1)
  {
    assert Pow2(7 * 0) == 1;
    SevenBits(9 - i);
  }

  lemma {:induction false} FitsTen(v: nat)
    requires v < TWO64
    ensures FitsRest(v, 0)
  {
    Powers();
    Pow2Grows(64, 70);
  }

  // pb_encode_varint
  method EncodeVarintTo(s: OStream, value: nat) returns (ok: bool)
    requires s.Valid() && value < TWO64
    modifies s`state, s`bytesWritten, s.buf
    ensures Wrote(s, old(s.bytesWritten), old(s.Out()), ok, Some(EncodeVarint(value)))
  {
    if value <= 0x7F {
      ok := s.Write([value]);
      return;
    }
    var bytes := VarintBytes(value);
    ok := s.Write(bytes);
  }

  // The loop of pb_encode_varint over its ten-byte buffer.
  method VarintBytes(value: nat) returns (bytes: seq<Byte>)
    requires 0 < value < TWO64
    ensures bytes == EncodeVarint(value)
  {
    var buffer := new Byte[10];
    var i: nat, v: nat := 0, value;
    FitsTen(value);
    while v != 0
      invariant FitsRest(v, i) && (v == 0 ==> i > 0)
      invariant Partly(value, buffer[..i], v)
      decreases v
    {
      OneMoreGroup(value, buffer[..i], v);
      OneGroupLess(v, i);
      PutGroup(buffer, i, v);
      v := v / 0x80;
      i := i + 1;
    }
    ClearTop(buffer, i - 1);
    return buffer[..i];
  }

  method PutGroup(buffer: array<Byte>, i: nat, v: nat)
    requires i < buffer.Length
    modifies buffer
    ensures buffer[..i + 1] == old(buffer[..i]) + [v % 0x80 + 0x80]
  {
    buffer[i] := v % 0x80 + 0x80;
  }

  method ClearTop(buffer: array<Byte>, i: nat)
    requires i < buffer.Length
    modifies buffer
    ensures buffer[..i + 1] == ClearedLast(old(buffer[..i + 1]))
  {
    buffer[i] := buffer[i] % 0x80;
  }

  lemma {:induction false} WroteBoth(s: OStream, before: nat, out: seq<Byte>, mid: nat, midOut: seq<Byte>, ok: bool,
                                     a: seq<Byte>, b: Option<seq<Byte>>)
    requires mid == before + |a| && (!s.sizing ==> midOut == out + a)
    requires Wrote(s, mid, midOut, ok, b)
    ensures Wrote(s, before, out, ok, Join(Some(a), b))
  {
  }

  // In a loop: done is written, a was to be written next, and b after it.
  lemma {:induction false} WroteNext(s: OStream, before: nat, out: seq<Byte>, done: seq<Byte>, mid: nat,
                                     midOut: seq<Byte>, ok: bool, a: Option<seq<Byte>>, b: Option<seq<Byte>>)
    requires mid == before + |done| && (!s.sizing ==> midOut == out + done)
    requires Wrote(s, mid, midOut, ok, a)
    ensures ok ==> Wrote(s, before, out, true, Some(done + a.value))
                   && Join(Some(done), Join(a, b)) == Join(Some(done + a.value), b)
    ensures !ok ==> Wrote(s, before, out, false, Join(Some(done), Join(a, b)))
  {
    if a.Some? {
      assert out + done + a.value == out + (done + a.value);
      if b.Some? {
        assert done + (a.value + b.value) == done + a.value + b.value;
      }
    }
  }

  // pb_encode_tag: (field_number << 3) | wiretype
  method EncodeTagTo(s: OStream, wireType: nat, tag: nat) returns (ok: bool)
    requires s.Valid() && tag < TWO32 && wireType < 8
    modifies s`state, s`bytesWritten, s.buf
    ensures Wrote(s, old(s.bytesWritten), old(s.Out()), ok, Some(EncodeTag(tag, wireType)))
  {
    ok := EncodeVarintTo(s, 8 * tag + wireType);
  }

  // pb_encode_string
  method EncodeStringTo(s: OStream, b: seq<Byte>) returns (ok: bool)
    requires s.Valid() && |b| < TWO64
    modifies s`state, s`bytesWritten, s.buf
    ensures Wrote(s, old(s.bytesWritten), old(s.Out()), ok, Some(Prefixed(b)))
  {
    ok := EncodeVarintTo(s, |b|);
    if !ok {
      return;
    }
    ghost var mid, midOut := s.bytesWritten, s.Out();
    ok := s.Write(b);
    WroteBoth(s, old(s.bytesWritten), old(s.Out()), mid, midOut, ok, EncodeVarint(|b|), Some(b));
  }

  // pb_encode_svarint
  method EncodeSvarintTo(s: OStream, value: int) returns (ok: bool)
    requires s.Valid() && FitsSigned(value, TWO64)
    modifies s`state, s`bytesWritten, s.buf
    ensures Wrote(s, old(s.bytesWritten), old(s.Out()), ok, Some(EncodeVarint(ZigZag(value))))
  {
    var zigzagged: nat;
    if value < 0 {
      zigzagged := TWO64 - 1 - (2 * Unsigned64(value)) % TWO64;
    } else {
      zigzagged := 2 * value;
    }
    ok := EncodeVarintTo(s, zigzagged);
  }

  // pb_encode_fixed32 and pb_encode_fixed64: the bytes by shifting and masking.
  method EncodeFixedTo(s: OStream, value: nat, w: nat) returns (ok: bool)
    requires s.Valid()
    modifies s`state, s`bytesWritten, s.buf
    ensures Wrote(s, old(s.bytesWritten), old(s.Out()), ok, Some(LittleEndian(value, w)))
  {
    var bytes := new Byte[w];
    var i, v: nat := 0, value;
    assert bytes[..0] + LittleEndian(v, w) == LittleEndian(value, w);
    while i < w
      modifies bytes
      invariant i <= w
      invariant bytes[..i] + LittleEndian(v, w - i) == LittleEndian(value, w)
    {
      ghost var done, rest := bytes[..i], LittleEndian(v / 0x100, w - i - 1);
      bytes[i] := v % 0x100;
      assert bytes[..i + 1] == done + [v % 0x100];
      assert done + ([v % 0x100] + rest) == bytes[..i + 1] + rest;
      v := v / 0x100;
      i := i + 1;
    }
    assert bytes[..w] == LittleEndian(value, w);
    ok := s.Write(bytes[..]);
  }
}
