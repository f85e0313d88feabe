// Base 128 varints, zigzag and little-endian integers of the Protocol Buffers wire format.

module PbVarint {
  import opened Wire
  import opened Words

  const TWO32 := 0x1_0000_0000
  const TWO64 := 0x1_0000_0000_0000_0000

  // What reading from the front of some bytes gives, and what it leaves.
  datatype Parsed<+T> = Failed | Parsed(value: T, rest: seq<Byte>)

  function EncodeVarint(n: nat): (b: seq<Byte>)
    ensures |b| > 0
  {
    if n < 0x80 then [n] else [n % 0x80 + 0x80] + EncodeVarint(n / 0x80)
  }

  // The number of bytes with the continuation bit at the front.
  function Continued(b: seq<Byte>): (k: nat)
    ensures k <= |b|
  {
    if b == [] || b[0] < 0x80 then 0 else 1 + Continued(b[1..])
  }

  // The seven-bit groups, least significant first.
  function Groups(b: seq<Byte>): nat {
    if b == [] then 0 else b[0] % 0x80 + 0x80 * Groups(b[1..])
  }

  // At most max bytes; bits above 2^width are lost.
  function DecodeVarintWithin(b: seq<Byte>, max: nat, limit: nat): (p: Parsed<nat>)
    requires limit > 0
    ensures p.Parsed? ==> |p.rest| < |b| && p.value < limit
  {
    var k := Continued(b);
    if k == |b| || k >= max then Failed else Parsed(Groups(b[..k + 1]) % limit, b[k + 1..])
  }

  // pb_decode_varint
  function DecodeVarint(b: seq<Byte>): (p: Parsed<nat>) {
    DecodeVarintWithin(b, 10, TWO64)
  }

  // pb_decode_varint32
  function DecodeVarint32(b: seq<Byte>): (p: Parsed<nat>) {
    DecodeVarintWithin(b, 5, TWO32)
  }

  lemma {:induction false} VarintShape(n: nat, rest: seq<Byte>)
    ensures Continued(EncodeVarint(n) + rest) == |EncodeVarint(n)| - 1
    ensures Groups(EncodeVarint(n)) == n
  {
    var b := EncodeVarint(n);
    if n >= 0x80 {
      VarintShape(n / 0x80, rest);
      assert (b + rest)[1..] == EncodeVarint(n / 0x80) + rest;
      assert b[1..] == EncodeVarint(n / 0x80);
    } else {
      assert b[1..] == [];
    }
  }

  // A value below 2^(7w) takes at most w bytes.
  lemma {:induction false} VarintLength(n: nat, w: nat)
    requires w > 0 && n < Pow2(7 * w)
    ensures |EncodeVarint(n)| <= w
    decreases w
  {
    SevenBits(w - 1);
    assert Pow2(0) == 1;
    if w > 1 && n >= 0x80 {
      VarintLength(n / 0x80, w - 1);
    }
  }

  lemma {:induction false} SevenBits(i: nat)
    ensures Pow2(7 * (i + 1)) == 0x80 * Pow2(7 * i)
  {
    var e := 7 * i;
    assert Pow2(e + 7) == 2 * Pow2(e + 6) && Pow2(e + 6) == 2 * Pow2(e + 5) && Pow2(e + 5) == 2 * Pow2(e + 4);
    assert Pow2(e + 4) == 2 * Pow2(e + 3) && Pow2(e + 3) == 2 * Pow2(e + 2) && Pow2(e + 2) == 2 * Pow2(e + 1);
  }

  lemma {:induction false} BytePowers()
    ensures Pow2(8) == 0x100 && Pow2(16) == 0x1_0000
  {
    assert Pow2(4) == 16;
    PowerOfSum(4, 4);
    PowerOfSum(8, 8);
  }

  lemma {:induction false} WordPower()
    ensures Pow2(32) == TWO32
  {
    BytePowers();
    PowerOfSum(16, 16);
  }

  lemma {:induction false} Powers()
    ensures Pow2(32) == TWO32 && Pow2(64) == TWO64
  {
    WordPower();
    PowerOfSum(32, 32);
  }

  lemma {:induction false} VarintLengths(n: nat)
    ensures n < TWO64 ==> |EncodeVarint(n)| <= 10
    ensures n < TWO32 ==> |EncodeVarint(n)| <= 5
  {
    Powers();
    if n < TWO64 {
      Pow2Grows(64, 7 * 10);
      VarintLength(n, 10);
    }
    if n < TWO32 {
      Pow2Grows(32, 7 * 5);
      VarintLength(n, 5);
    }
  }

  lemma {:induction false} VarintWithin(n: nat, rest: seq<Byte>, max: nat, limit: nat)
    requires n < limit && |EncodeVarint(n)| <= max
    ensures DecodeVarintWithin(EncodeVarint(n) + rest, max, limit) == Parsed(n, rest)
  {
    var b := EncodeVarint(n);
    VarintShape(n, rest);
    assert (b + rest)[..|b|] == b && (b + rest)[|b|..] == rest;
    RemainderIsUnique(n, limit, 0, n);
  }

  // Decoding inverts encoding for every 64-bit value, in at most ten bytes.
  lemma {:induction false} VarintRoundTrip(n: nat, rest: seq<Byte>)
    requires n < TWO64
    ensures |EncodeVarint(n)| <= 10
    ensures DecodeVarint(EncodeVarint(n) + rest) == Parsed(n, rest)
    ensures n < TWO32 ==> DecodeVarint32(EncodeVarint(n) + rest) == Parsed(n, rest)
  {
    VarintLengths(n);
    VarintWithin(n, rest, 10, TWO64);
    if n < TWO32 {
      VarintWithin(n, rest, 5, TWO32);
    }
  }

  // When the 32-bit decoder succeeds it takes the same bytes as the 64-bit one and returns its
  // result modulo 2^32.
  lemma {:induction false} Varint32Agrees(b: seq<Byte>)
    requires DecodeVarint32(b).Parsed?
    ensures DecodeVarint(b) == Parsed(DecodeVarint(b).value, DecodeVarint32(b).rest)
    ensures DecodeVarint32(b).value == DecodeVarint(b).value % TWO32
  {
  }

  // Bytes that follow do not matter.
  lemma {:induction false} VarintIgnoresTail(b: seq<Byte>, tail: seq<Byte>, max: nat, limit: nat)
    requires limit > 0 && DecodeVarintWithin(b, max, limit).Parsed?
    ensures DecodeVarintWithin(b + tail, max, limit)
         == DecodeVarintWithin(b, max, limit).(rest := DecodeVarintWithin(b, max, limit).rest + tail)
  {
    ContinuedIgnoresTail(b, tail);
    var k := Continued(b);
    assert (b + tail)[..k + 1] == b[..k + 1] && (b + tail)[k + 1..] == b[k + 1..] + tail;
  }

  lemma {:induction false} ContinuedIgnoresTail(b: seq<Byte>, tail: seq<Byte>)
    requires Continued(b) < |b|
    ensures Continued(b + tail) == Continued(b)
  {
    if b[0] >= 0x80 {
      assert (b + tail)[1..] == b[1..] + tail;
      ContinuedIgnoresTail(b[1..], tail);
    }
  }

  // One group more, as the decoders' loops see it.
  lemma {:induction false} GroupsOneMore(b: seq<Byte>, x: Byte)
    ensures Groups(b) < Pow2(7 * |b|)
    ensures Groups(b + [x]) == Groups(b) + (x % 0x80) * Pow2(7 * |b|)
  {
    if b == [] {
      assert (b + [x])[1..] == [];
      assert Groups([]) == 0 && Groups([x]) == x % 0x80;
    } else {
      assert (b + [x])[1..] == b[1..] + [x];
      GroupsOneMore(b[1..], x);
      SevenBits(|b| - 1);
      var p := Pow2(7 * (|b| - 1));
      assert 0x80 * ((x % 0x80) * p) == (x % 0x80) * (0x80 * p);
    }
  }

  // The two's complement bits of a signed integer as a 64-bit unsigned one, and a cast to a
  // signed type of limit values.
  function Unsigned64(v: int): (n: nat)
    ensures n < TWO64
  {
    v % TWO64
  }

  function Signed(n: nat, limit: nat): (v: int)
    requires limit > 0
    ensures FitsSigned(v, limit) || limit == 1
  {
    var r := n % limit;
    if 2 * r >= limit && limit > 1 then r - limit else r
  }

  predicate FitsSigned(v: int, limit: nat) {
    0 <= 2 * v + limit && 2 * v < limit
  }

  lemma SignedInverts(v: int)
    requires FitsSigned(v, TWO64)
    ensures Signed(Unsigned64(v), TWO64) == v
  {
  }

  lemma {:induction false} SignedOfSmaller(v: int)
    requires FitsSigned(v, TWO32)
    ensures Signed(Unsigned64(v), TWO32) == v
  {
  }

  // pb_encode_svarint's mapping: ~(v << 1) for negative v.
  function ZigZag(v: int): (n: nat)
    requires FitsSigned(v, TWO64)
    ensures n < TWO64
  {
    if v < 0 then TWO64 - 1 - (2 * Unsigned64(v)) % TWO64 else 2 * v
  }

  // pb_decode_svarint's: ~(n >> 1) for odd n.
  function UnZigZag(n: nat): (v: int)
    requires n < TWO64
    ensures FitsSigned(v, TWO64)
  {
    if n % 2 == 1 then Signed(TWO64 - 1 - n / 2, TWO64) else n / 2
  }

  // Zigzag counts 0, -1, 1, -2 and so on: the even numbers are the positive values, the odd ones
  // the negative.
  lemma {:induction false} ZigZagValue(v: int)
    requires FitsSigned(v, TWO64)
    ensures ZigZag(v) == if v < 0 then -2 * v - 1 else 2 * v
  {
    if v < 0 {
      RemainderIsUnique(2 * Unsigned64(v), TWO64, 1, 2 * v + TWO64);
    }
  }

  lemma {:induction false} ZigZagRoundTrip(v: int)
    requires FitsSigned(v, TWO64)
    ensures UnZigZag(ZigZag(v)) == v
  {
    if v < 0 {
      RemainderIsUnique(2 * Unsigned64(v), TWO64, 1, 2 * v + TWO64);
    }
  }

  lemma {:induction false} ZigZagOnto(n: nat)
    requires n < TWO64
    ensures ZigZag(UnZigZag(n)) == n
  {
  }

  function LittleEndian(n: nat, w: nat): (b: seq<Byte>)
    ensures |b| == w
  {
    if w == 0 then [] else [n % 0x100] + LittleEndian(n / 0x100, w - 1)
  }

  function GetLittleEndian(b: seq<Byte>): nat {
    if b == [] then 0 else b[0] + 0x100 * GetLittleEndian(b[1..])
  }

  lemma {:induction false} LittleEndianRoundTrip(n: nat, w: nat)
    requires n < Pow2(8 * w)
    ensures GetLittleEndian(LittleEndian(n, w)) == n
  {
    if w > 0 {
      PowerOfSum(8 * (w - 1), 8);
      assert Pow2(8) == 0x100 by {
        assert Pow2(4) == 16;
      }
      LittleEndianRoundTrip(n / 0x100, w - 1);
      assert LittleEndian(n, w)[1..] == LittleEndian(n / 0x100, w - 1);
    }
  }

  lemma {:induction false} LittleEndianBelow(b: seq<Byte>)
    ensures GetLittleEndian(b) < Pow2(8 * |b|)
  {
    if b != [] {
      LittleEndianBelow(b[1..]);
      PowerOfSum(8 * (|b| - 1), 8);
      assert Pow2(8) == 0x100 by {
        assert Pow2(4) == 16;
      }
    }
  }

  // One encoding and then another.
  function Join(a: Option<seq<Byte>>, b: Option<seq<Byte>>): Option<seq<Byte>> {
    if a.Some? && b.Some? then Some(a.value + b.value) else None
  }

  lemma {:induction false} JoinNothing(e: Option<seq<Byte>>)
    ensures Join(Some([]), e) == e
  {
    if e.Some? {
      assert [] + e.value == e.value;
    }
  }

  // (field_number << 3) | wiretype
  function EncodeTag(tag: nat, wireType: nat): seq<Byte> {
    EncodeVarint(8 * tag + wireType)
  }

  // A length and that many bytes.
  function Prefixed(b: seq<Byte>): (r: seq<Byte>)
    ensures |r| > |b|
  {
    EncodeVarint(|b|) + b
  }
}
