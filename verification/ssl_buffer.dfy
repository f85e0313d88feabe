// SSLBuffer: a contiguous buffer with 16-bit offset, size and capacity.

module SslBuffers {
  import opened Wire

  const SSL3_ALIGN_PAYLOAD := 8
  const UINT16 := 0x1_0000

  // Where EnsureCap puts the contents, so that what follows the header is aligned.
  function AlignedOffset(address: nat, headerLen: nat): (r: nat)
    ensures r < SSL3_ALIGN_PAYLOAD && (address + r + headerLen) % SSL3_ALIGN_PAYLOAD == 0
  {
    (0 - headerLen - address) % SSL3_ALIGN_PAYLOAD
  }

  // The offset behind n bytes. It is 16 bits wide, so it can wrap.
  function Advanced(offset: nat, n: nat): (r: nat)
    ensures r <= offset + n && r < UINT16
    ensures r == offset + n <==> offset + n < UINT16
  {
    (offset + n) % UINT16
  }

  class SslBuffer {
    var mem: array<Byte>     // no elements stand for a null buf_
    ghost var address: nat   // where mem stands
    var offset: nat
    var size: nat
    var cap: nat

    ghost predicate Valid()
      reads this
    {
      && offset < UINT16 && cap < UINT16 && size <= cap
      && offset + cap <= mem.Length
    }

    ghost function Contents(): seq<Byte>
      requires Valid()
      reads this, mem
    {
      mem[offset..offset + size]
    }

    // No Consume wraps the offset but one that leaves nothing.
    ghost predicate Tame()
      reads this
    {
      offset + cap <= UINT16
    }

    constructor ()
      ensures Valid() && Tame() && Contents() == [] && cap == 0 && fresh(mem)
    {
      mem := new Byte[0];
      address, offset, size, cap := 0, 0, 0, 0;
    }

    method Clear()
      modifies this
      ensures Valid() && Tame() && Contents() == [] && size == 0 && cap == 0 && fresh(mem)
    {
      mem := new Byte[0];
      offset, size, cap := 0, 0, 0;
    }

    // Fails only when the capacity does not fit; otherwise keeps the contents, and a new
    // allocation has what follows the header aligned.
    method EnsureCap(headerLen: nat, newCap: nat) returns (ok: bool)
      requires Valid()
      modifies this
      ensures Valid() && Contents() == old(Contents()) && size == old(size)
      ensures ok <==> newCap < UINT16
      ensures !ok || old(cap) >= newCap ==> unchanged(this)
      ensures ok && old(cap) < newCap ==> fresh(mem) && cap == newCap && offset == AlignedOffset(address, headerLen)
    {
      if newCap >= UINT16 {
        return false;
      }
      if cap >= newCap {
        return true;
      }
      var newMem := new Byte[newCap + SSL3_ALIGN_PAYLOAD - 1];
      var newAddress: nat := *;
      var newOffset := AlignedOffset(newAddress, headerLen);
      forall j | 0 <= j < size {
        newMem[newOffset + j] := mem[offset + j];
      }
      assert newMem[newOffset..newOffset + size] == Contents();
      mem, address, offset, cap := newMem, newAddress, newOffset, newCap;
      return true;
    }

    // What a caller does to remaining() before it calls DidWrite.
    method Fill(bytes: seq<Byte>)
      requires Valid() && size + |bytes| <= cap
      modifies mem
      ensures Valid() && Contents() == old(Contents())
      ensures mem[offset + size..offset + size + |bytes|] == bytes
    {
      forall j | 0 <= j < |bytes| {
        mem[offset + size + j] := bytes[j];
      }
    }

    // The source aborts unless the precondition holds.
    method DidWrite(n: nat)
      requires Valid() && n <= cap - size
      modifies this`size
      ensures Valid() && size == old(size) + n
      ensures Contents() == old(Contents()) + old(mem[offset + size..offset + size + n])
    {
      size := size + n;
    }

    method Append(bytes: seq<Byte>)
      requires Valid() && size + |bytes| <= cap
      modifies this`size, mem
      ensures Valid() && size == old(size) + |bytes|
      ensures Contents() == old(Contents()) + bytes
    {
      Fill(bytes);
      DidWrite(|bytes|);
    }

    // The source aborts unless the precondition holds.
    method Consume(n: nat)
      requires Valid() && n <= size
      modifies this`offset, this`size, this`cap
      ensures Valid() && size == old(size) - n && cap == old(cap) - n
      ensures offset == Advanced(old(offset), n)
      ensures old(offset) + n < UINT16 || n == old(size) ==> Contents() == old(Contents())[n..]
      ensures old(Tame()) ==> Tame()
    {
      offset := Advanced(offset, n);
      size := size - n;
      cap := cap - n;
    }

    method DiscardConsumed()
      requires Valid()
      modifies this
      ensures Valid() && Contents() == old(Contents())
      ensures old(size) > 0 ==> unchanged(this)
      ensures old(size) == 0 ==> fresh(mem) && cap == 0 && Tame()
      ensures old(Tame()) ==> Tame()
    {
      if size == 0 {
        Clear();
      }
    }
  }

  function View(mem: seq<Byte>, offset: nat, size: nat): seq<Byte>
    requires offset + size <= |mem|
  {
    mem[offset..offset + size]
  }

  // Consuming n bytes leaves the rest of the contents in view, whatever they are, exactly
  // when the offset does not wrap or nothing is left.
  lemma {:induction false} ConsumeKeepsRest(offset: nat, size: nat, n: nat, length: nat)
    requires offset < UINT16 && n <= size < UINT16 && offset + size <= length
    ensures (forall mem: seq<Byte> | |mem| == length ::
               View(mem, Advanced(offset, n), size - n) == View(mem, offset + n, size - n))
       <==> offset + n < UINT16 || n == size
  {
    if offset + n >= UINT16 && n < size {
      var mem := Marked(length, offset + n);
      assert View(mem, Advanced(offset, n), size - n)[0] == 0;
      assert View(mem, offset + n, size - n)[0] == 1;
    }
  }

  // Zeros, and ones from some place on.
  function Marked(length: nat, from: nat): (mem: seq<Byte>)
    ensures |mem| == length && forall i :: 0 <= i < length ==> mem[i] == if i < from then 0 else 1
  {
    seq(length, i => if i < from then 0 else 1)
  }

  // A run of partial writes of a buffer's contents.
  predicate CanTake(writes: seq<nat>, size: nat) {
    writes == [] || (0 < writes[0] <= size && CanTake(writes[1..], size - writes[0]))
  }

  function Sum(writes: seq<nat>): nat {
    if writes == [] then 0 else writes[0] + Sum(writes[1..])
  }

  // What the transport is given, each write followed by a Consume.
  function Taken(mem: seq<Byte>, offset: nat, size: nat, writes: seq<nat>): seq<Byte>
    requires offset + size <= |mem| && CanTake(writes, size)
    decreases |writes|
  {
    if writes == [] then []
    else View(mem, offset, writes[0]) + Taken(mem, Advanced(offset, writes[0]), size - writes[0], writes[1..])
  }

  lemma {:induction false} SumFits(writes: seq<nat>, size: nat)
    requires CanTake(writes, size)
    ensures Sum(writes) <= size
    decreases |writes|
  {
    if writes != [] {
      SumFits(writes[1..], size - writes[0]);
    }
  }

  ghost predicate InPlace(mem: seq<Byte>, offset: nat, size: nat, writes: seq<nat>)
    requires offset + size <= |mem| && CanTake(writes, size)
  {
    SumFits(writes, size);
    Taken(mem, offset, size, writes) == View(mem, offset, Sum(writes))
  }

  // Whatever the contents and however they are written out in parts.
  ghost predicate AlwaysInPlace(offset: nat, size: nat) {
    forall mem: seq<Byte>, writes: seq<nat> | offset + size <= |mem| && CanTake(writes, size) ::
      InPlace(mem, offset, size, writes)
  }

  lemma {:induction false} StaysInPlace(mem: seq<Byte>, offset: nat, size: nat, writes: seq<nat>)
    requires offset + size <= |mem| && CanTake(writes, size) && offset + size <= UINT16
    ensures InPlace(mem, offset, size, writes)
    decreases |writes|
  {
    SumFits(writes, size);
    if writes != [] {
      var n := writes[0];
      SumFits(writes[1..], size - n);
      if writes[1..] == [] {
        assert Taken(mem, Advanced(offset, n), size - n, writes[1..]) == [];
      } else {
        StaysInPlace(mem, offset + n, size - n, writes[1..]);
      }
      assert View(mem, offset, n) + View(mem, offset + n, Sum(writes[1..])) == View(mem, offset, Sum(writes));
    }
  }

  // Writing up to where the offset wraps, and one byte more.
  lemma {:induction false} LosesPlace(offset: nat, size: nat)
    requires offset < UINT16 && offset + size > UINT16
    ensures CanTake([UINT16 - offset, 1], size)
    ensures !InPlace(Marked(offset + size, UINT16), offset, size, [UINT16 - offset, 1])
  {
    var mem, n := Marked(offset + size, UINT16), UINT16 - offset;
    assert [n, 1][1..] == [1] && [1][1..] == [];
    SumFits([n, 1], size);
    var taken := Taken(mem, offset, size, [n, 1]);
    assert Advanced(offset, n) == 0;
    var rest := Taken(mem, 0, size - n, [1]);
    assert rest == View(mem, 0, 1) + Taken(mem, Advanced(0, 1), size - n - 1, []);
    assert taken == View(mem, offset, n) + rest;
    assert Sum([n, 1]) == n + 1;
    assert taken[n] == 0 && View(mem, offset, n + 1)[n] == 1;
  }

  // No run of partial writes loses its place exactly when the contents end at 2^16 or before.
  lemma {:induction false} InPlaceIfFits(offset: nat, size: nat)
    requires offset < UINT16
    ensures AlwaysInPlace(offset, size) <==> offset + size <= UINT16
  {
    if offset + size <= UINT16 {
      forall mem: seq<Byte>, writes: seq<nat> | offset + size <= |mem| && CanTake(writes, size)
        ensures InPlace(mem, offset, size, writes)
      {
        StaysInPlace(mem, offset, size, writes);
      }
    } else {
      LosesPlace(offset, size);
    }
  }

  // The contents of a buffer made for w bytes, which EnsureCap makes only below 2^16, keep their
  // place wherever its memory stands and however many of the bytes are used.
  ghost predicate SafeFor(w: nat) {
    forall address: nat, headerLen: nat, size: nat :: w < UINT16 && size <= w ==>
      AlwaysInPlace(AlignedOffset(address, headerLen), size)
  }

  // A size can be asked for safely exactly when it is at most 65529 or refused.
  lemma {:induction false} SafeIfRoom(w: nat)
    ensures SafeFor(w) <==> w + SSL3_ALIGN_PAYLOAD - 1 <= UINT16 || w >= UINT16
  {
    if w + SSL3_ALIGN_PAYLOAD - 1 <= UINT16 || w >= UINT16 {
      forall address: nat, headerLen: nat, size: nat | w < UINT16 && size <= w
        ensures AlwaysInPlace(AlignedOffset(address, headerLen), size)
      {
        InPlaceIfFits(AlignedOffset(address, headerLen), size);
      }
    } else {
      assert AlignedOffset(1, 0) == 7;
      InPlaceIfFits(7, w);
      assert !AlwaysInPlace(AlignedOffset(1, 0), w);
    }
  }
}
