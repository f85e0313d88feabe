// Whether a singular field is written: integers are compared with zero byte by byte.

module PbSingular {
  import opened Wire
  import opened Words
  import opened PbVarint
  import opened PbMessages

  // Byte i of an integer in the struct, two's complement and least significant first.
  function ByteOf(n: int, i: nat): nat {
    (n / Pow2(8 * i)) % 0x100
  }

  lemma Distributes(q: int, a: int, c: nat, p: nat)
    requires q == 0x100 * a + c
    ensures q * p == a * (p * 0x100) + c * p
  {
  }

  lemma BelowNext(c: nat, p: nat, r: nat)
    requires c < 0x100 && r < p
    ensures c * p + r < p * 0x100
    ensures c * p + r == 0 <==> c == 0 && r == 0
  {
    if c > 0 {
      AtLeastOnce(c, p);
    }
    AtLeastOnce(0x100 - c, p);
    assert (0x100 - c) * p == 0x100 * p - c * p;
  }

  lemma {:induction false} NextByte(n: int, i: nat)
    ensures n % Pow2(8 * (i + 1)) == 0 <==> n % Pow2(8 * i) == 0 && ByteOf(n, i) == 0
  {
    PowerOfSum(8 * i, 8);
    BytePowers();
    ByteSplits(n, Pow2(8 * i));
  }

  lemma {:induction false} ByteSplits(n: int, p: nat)
    requires p > 0
    ensures n % (p * 0x100) == 0 <==> n % p == 0 && (n / p) % 0x100 == 0
  {
    var q, r := n / p, n % p;
    var a, c := q / 0x100, q % 0x100;
    Distributes(q, a, c, p);
    BelowNext(c, p, r);
    RemainderIsUnique(n, p * 0x100, a, c * p + r);
  }

  lemma {:induction false} LowBytesZero(n: int, i: nat, k: nat)
    requires i <= k && n % Pow2(8 * k) == 0
    ensures n % Pow2(8 * i) == 0
    decreases k
  {
    if i < k {
      NextByte(n, k - 1);
      LowBytesZero(n, i, k - 1);
    }
  }

  // pb_check_proto3_default_value
  method CheckDefault(f: Field, v: Value) returns (isDefault: bool)
    requires !f.ltype.Submessage?
    ensures isDefault <==> IsDefault(f, v)
  {
    if f.ltype.Bytes? {
      return v.Raw? && |v.bytes| == 0;
    }
    if f.ltype.Str? {
      return v.Raw? && (v.bytes == [] || v.bytes[0] == 0);
    }
    if f.ltype.FixedLengthBytes? {
      return f.dataSize == 0;
    }
    if !v.Int? {
      return false;
    }
    var i := 0;
    while i < f.dataSize
      invariant 0 <= i <= f.dataSize && v.n % Pow2(8 * i) == 0
    {
      NextByte(v.n, i);
      if ByteOf(v.n, i) != 0 {
        if IsDefault(f, v) {
          LowBytesZero(v.n, i + 1, f.dataSize);
        }
        return false;
      }
      i := i + 1;
    }
    isDefault := true;
  }
}
