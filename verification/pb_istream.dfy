// pb_istream_t over a buffer: a position and a number of bytes left, which substreams limit.

module PbIStream {
  import opened Wire
  import opened Words
  import opened PbVarint
  import opened PbMessages
  import opened PbDecoding

  class IStream {
    const data: seq<Byte>
    var pos: nat
    var bytesLeft: nat

    ghost predicate Valid()
      reads this
    {
      pos + bytesLeft <= |data|
    }

    ghost function Rest(): seq<Byte>
      requires Valid()
      reads this
    {
      data[pos..pos + bytesLeft]
    }

    // pb_istream_from_buffer
    constructor (data: seq<Byte>)
      ensures Valid() && pos == 0 && Rest() == data
    {
      this.data := data;
      pos, bytesLeft := 0, |data|;
    }

    // The substream of pb_make_string_substream.
    constructor Sub(parent: IStream, size: nat)
      requires parent.Valid() && size <= parent.bytesLeft
      ensures Valid() && data == parent.data && pos == parent.pos && bytesLeft == size
      ensures Rest() == parent.Rest()[..size]
    {
      data := parent.data;
      pos, bytesLeft := parent.pos, size;
    }

    // pb_read
    method Read(count: nat) returns (ok: bool, bytes: seq<Byte>)
      requires Valid()
      modifies this
      ensures Took(this, old(pos + bytesLeft), ok, Take(old(Rest()), count))
      ensures ok ==> bytes == Take(old(Rest()), count).value
      ensures !ok ==> unchanged(this)
    {
      if bytesLeft < count {
        return false, [];
      }
      bytes := data[pos..pos + count];
      pos := pos + count;
      bytesLeft := bytesLeft - count;
      return true, bytes;
    }

    // pb_readbyte
    method ReadByte() returns (ok: bool, byte: Byte)
      requires Valid()
      modifies this
      ensures Valid() && pos + bytesLeft == old(pos + bytesLeft)
      ensures ok <==> old(Rest()) != []
      ensures ok ==> byte == old(Rest())[0] && Rest() == old(Rest())[1..]
      ensures !ok ==> unchanged(this)
    {
      if bytesLeft == 0 {
        return false, 0;
      }
      byte := data[pos];
      pos := pos + 1;
      bytesLeft := bytesLeft - 1;
      return true, byte;
    }
  }

  // The operation succeeds exactly when p does, leaves what p leaves, and moves the position by
  // as much as the number of bytes left goes down; a failing one never reaches further.
  ghost predicate Took<T>(s: IStream, end: nat, ok: bool, p: Parsed<T>)
    reads s
  {
    && s.Valid()
    && (ok <==> p.Parsed?)
    && (if ok then s.Rest() == p.rest && s.pos + s.bytesLeft == end else s.pos + s.bytesLeft <= end)
  }

  // n bytes with the continuation bit are behind, of r.
  ghost predicate Behind(r: seq<Byte>, n: nat) {
    n <= |r| && forall i :: 0 <= i < n ==> r[i] >= 0x80
  }

  lemma {:induction false} ContinuedFrom(r: seq<Byte>, n: nat)
    requires Behind(r, n)
    ensures n <= Continued(r) && (Continued(r) == n <==> n == |r| || r[n] < 0x80)
  {
    if n > 0 {
      assert forall i :: 0 <= i < n - 1 ==> r[1..][i] == r[i + 1];
      ContinuedFrom(r[1..], n - 1);
    }
  }

  // A varint loop after n bytes of r, the last of them byte, in a word of limit values.
  ghost predicate Midway(r: seq<Byte>, n: nat, result: nat, byte: Byte, limit: nat) {
    && 0 < n <= |r| && limit > 0
    && Behind(r, n - 1) && r[n - 1] == byte
    && result == Groups(r[..n]) % limit
  }

  lemma {:induction false} FirstGroup(r: seq<Byte>, limit: nat)
    requires r != [] && limit >= 0x80
    ensures Midway(r, 1, r[0] % 0x80, r[0], limit)
  {
  }

  lemma {:induction false} NextGroup(r: seq<Byte>, n: nat, result: nat, byte: Byte, w: nat, limit: nat)
    requires Midway(r, n, result, byte, limit) && byte >= 0x80 && limit == Pow2(w)
    requires n < |r| && 7 * n < w
    ensures Midway(r, n + 1, Or(result, ((r[n] % 0x80) * Pow2(7 * n)) % limit), r[n], limit)
  {
    assert r[..n + 1] == r[..n] + [r[n]];
    GroupsOneMore(r[..n], r[n]);
    Pow2Grows(7 * n, w);
    RemainderIsUnique(Groups(r[..n]), limit, 0, Groups(r[..n]));
    OrAboveAdds(Groups(r[..n]), r[n] % 0x80, 7 * n, w);
  }

  lemma {:induction false} GroupsDone(r: seq<Byte>, n: nat, result: nat, byte: Byte, max: nat, limit: nat)
    requires Midway(r, n, result, byte, limit) && byte < 0x80 && n <= max
    ensures DecodeVarintWithin(r, max, limit) == Parsed(result, r[n..])
  {
    ContinuedFrom(r, n - 1);
  }

  lemma {:induction false} GroupsLacking(r: seq<Byte>, n: nat, max: nat, limit: nat)
    requires Behind(r, n) && limit > 0 && (n == |r| || n >= max)
    ensures DecodeVarintWithin(r, max, limit).Failed?
  {
    ContinuedFrom(r, n);
  }

  // pb_decode_varint
  method DecodeVarintFrom(s: IStream) returns (ok: bool, value: nat)
    requires s.Valid()
    modifies s
    ensures Took(s, old(s.pos + s.bytesLeft), ok, DecodeVarint(old(s.Rest())))
    ensures ok ==> value == DecodeVarint(old(s.Rest())).value
  {
    ghost var r, n: nat := s.Rest(), 0;
    var bitpos, result, byte: Byte := 0, 0, 0x80;
    Powers();
    OrOfZero(0);
    while byte >= 0x80
      invariant s.Valid() && s.pos + s.bytesLeft == old(s.pos + s.bytesLeft)
      invariant n <= |r| && s.Rest() == r[n..] && bitpos == 7 * n && n <= 10
      invariant if n == 0 then result == 0 && byte == 0x80 else Midway(r, n, result, byte, TWO64)
      decreases |r| - n
    {
      if bitpos >= 64 {
        GroupsLacking(r, n, 10, TWO64);
        return false, 0;
      }
      ok, byte := s.ReadByte();
      if !ok {
        GroupsLacking(r, n, 10, TWO64);
        return false, 0;
      }
      if n == 0 {
        FirstGroup(r, TWO64);
        ShiftByNone(byte % 0x80, TWO64);
      } else {
        NextGroup(r, n, result, r[n - 1], 64, TWO64);
      }
      result := Or(result, ((byte % 0x80) * Pow2(bitpos)) % TWO64);
      bitpos := bitpos + 7;
      n := n + 1;
    }
    GroupsDone(r, n, result, byte, 10, TWO64);
    return true, result;
  }

  lemma {:induction false} ShiftByNone(x: nat, limit: nat)
    requires x < limit
    ensures Or(0, (x * Pow2(0)) % limit) == x
  {
    OrOfZero(x);
    RemainderIsUnique(x, limit, 0, x);
  }

  // pb_decode_varint32. A failure has used up the stream exactly when it held at most five bytes.
  method DecodeVarint32From(s: IStream) returns (ok: bool, value: nat)
    requires s.Valid()
    modifies s
    ensures Took(s, old(s.pos + s.bytesLeft), ok, DecodeVarint32(old(s.Rest())))
    ensures ok ==> value == DecodeVarint32(old(s.Rest())).value
    ensures !ok ==> (s.bytesLeft == 0 <==> |old(s.Rest())| <= 5) && s.pos + s.bytesLeft == old(s.pos + s.bytesLeft)
  {
    ghost var r := s.Rest();
    Powers();
    var byte: Byte;
    ok, byte := s.ReadByte();
    if !ok {
      GroupsLacking(r, 0, 5, TWO32);
      return false, 0;
    }
    FirstGroup(r, TWO32);
    if byte < 0x80 {
      GroupsDone(r, 1, byte, byte, 5, TWO32);
      return true, byte;
    }
    var bitpos, result: nat := 7, byte % 0x80;
    ghost var n: nat := 1;
    while byte >= 0x80
      invariant s.Valid() && s.pos + s.bytesLeft == old(s.pos + s.bytesLeft)
      invariant n <= |r| && s.Rest() == r[n..] && bitpos == 7 * n && n <= 5
      invariant Midway(r, n, result, byte, TWO32)
      decreases |r| - n
    {
      if bitpos >= 32 {
        GroupsLacking(r, n, 5, TWO32);
        return false, 0;
      }
      ok, byte := s.ReadByte();
      if !ok {
        GroupsLacking(r, n, 5, TWO32);
        return false, 0;
      }
      NextGroup(r, n, result, r[n - 1], 32, TWO32);
      result := Or(result, ((byte % 0x80) * Pow2(bitpos)) % TWO32);
      bitpos := bitpos + 7;
      n := n + 1;
    }
    GroupsDone(r, n, result, byte, 5, TWO32);
    return true, result;
  }

  // pb_skip_varint
  method SkipVarintFrom(s: IStream) returns (ok: bool)
    requires s.Valid()
    modifies s
    ensures Took(s, old(s.pos + s.bytesLeft), ok, SkipVarint(old(s.Rest())))
  {
    ghost var r, n: nat := s.Rest(), 0;
    var byte: Byte := 0x80;
    assert r[0..] == r;
    while byte >= 0x80
      invariant s.Valid() && s.pos + s.bytesLeft == old(s.pos + s.bytesLeft)
      invariant n <= |r| && s.Rest() == r[n..]
      invariant if byte >= 0x80 then Behind(r, n) else n > 0 && Behind(r, n - 1) && r[n - 1] == byte
      decreases |r| - n
    {
      ContinuedFrom(r, n);
      ok, byte := s.ReadByte();
      if !ok {
        return;
      }
      n := n + 1;
    }
    ContinuedFrom(r, n - 1);
    return true;
  }

  // pb_skip_string
  method SkipStringFrom(s: IStream) returns (ok: bool)
    requires s.Valid()
    modifies s
    ensures Took(s, old(s.pos + s.bytesLeft), ok, Drop(TakePrefixed(old(s.Rest()))))
  {
    var length, unused;
    ok, length := DecodeVarint32From(s);
    if !ok {
      return;
    }
    ok, unused := s.Read(length);
  }

  // pb_skip_field
  method SkipFieldFrom(s: IStream, wireType: nat) returns (ok: bool)
    requires s.Valid()
    modifies s
    ensures Took(s, old(s.pos + s.bytesLeft), ok, SkipField(wireType, old(s.Rest())))
  {
    var unused;
    if wireType == WT_VARINT {
      ok := SkipVarintFrom(s);
    } else if wireType == WT_64BIT {
      ok, unused := s.Read(8);
    } else if wireType == WT_STRING {
      ok := SkipStringFrom(s);
    } else if wireType == WT_32BIT {
      ok, unused := s.Read(4);
    } else {
      ok := false;
    }
  }

  // pb_decode_tag
  method DecodeTagFrom(s: IStream) returns (ok: bool, wireType: nat, tag: nat, eof: bool)
    requires s.Valid() && s.bytesLeft > 0
    modifies s
    ensures s.Valid() && s.pos + s.bytesLeft == old(s.pos + s.bytesLeft)
    ensures ok <==> DecodeTag(old(s.Rest())).Tag?
    ensures ok ==> DecodeTag(old(s.Rest())) == Tag(tag, wireType, s.Rest())
    ensures !ok ==> (eof <==> DecodeTag(old(s.Rest())).Eof?)
    ensures !ok && eof ==> DecodeTag(old(s.Rest())) == Eof(s.Rest())
  {
    eof, wireType, tag := false, 0, 0;
    var temp;
    ok, temp := DecodeVarint32From(s);
    if !ok {
      if s.bytesLeft == 0 {
        eof := true;
      }
      return;
    }
    if temp == 0 {
      return false, 0, 0, true;
    }
    return true, temp % 8, temp / 8, false;
  }

  // A substream of s, within the bytes before the end of s; rest is what s has behind it.
  ghost predicate IsSub(sub: IStream, s: IStream, end: nat, rest: seq<Byte>)
    reads s, sub
  {
    && s.Valid() && sub.Valid() && s != sub && sub.data == s.data
    && sub.pos + sub.bytesLeft + s.bytesLeft <= end <= |s.data|
    && s.data[end - s.bytesLeft..end] == rest
  }

  // pb_make_string_substream: the parent gives up the bytes, but keeps its position until the
  // substream is closed.
  method MakeSubstream(s: IStream) returns (ok: bool, sub: IStream)
    requires s.Valid()
    modifies s
    ensures s.Valid() && (ok <==> TakePrefixed(old(s.Rest())).Parsed?)
    ensures s.pos + s.bytesLeft <= old(s.pos + s.bytesLeft)
    ensures ok ==> fresh(sub) && IsSub(sub, s, old(s.pos + s.bytesLeft), TakePrefixed(old(s.Rest())).rest)
    ensures ok ==> sub.pos == s.pos && sub.pos + sub.bytesLeft + s.bytesLeft == old(s.pos + s.bytesLeft)
    ensures ok ==> sub.Rest() == TakePrefixed(old(s.Rest())).value && sub.bytesLeft < old(s.bytesLeft)
  {
    sub := s;
    var size;
    ok, size := DecodeVarint32From(s);
    if !ok {
      return;
    }
    if s.bytesLeft < size {
      return false, s;
    }
    ghost var r := s.Rest();
    sub := new IStream.Sub(s, size);
    s.bytesLeft := s.bytesLeft - size;
    assert s.data[s.pos + size..s.pos + size + s.bytesLeft] == r[size..];
  }

  // pb_close_string_substream: whatever was read of the substream, the parent ends up behind it.
  method CloseSubstream(s: IStream, sub: IStream, ghost end: nat, ghost rest: seq<Byte>) returns (ok: bool)
    requires IsSub(sub, s, end, rest)
    modifies s`pos, sub
    ensures ok && s.Valid() && s.pos == old(sub.pos + sub.bytesLeft) && s.pos + s.bytesLeft <= end
    ensures old(sub.pos + sub.bytesLeft + s.bytesLeft) == end ==> s.Rest() == rest
  {
    ok := true;
    if sub.bytesLeft != 0 {
      var unused;
      ok, unused := sub.Read(sub.bytesLeft);
    }
    s.pos := sub.pos;
  }
}
