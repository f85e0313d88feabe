// Record protection as the record layers use it: a null cipher, or an abstract AEAD with
// a length bound for which opening undoes sealing.

module Ciphers {
  import opened Wire

  const DTLS1_VERSION_MAJOR := 0xfe

  // type, record version, 64-bit sequence number, input
  type SealFn = (nat, nat, nat, seq<Byte>) -> Option<seq<Byte>>

  datatype Cipher = Cipher(isNull: bool, version: nat, nonceLen: nat, overhead: nat, seal: SealFn, open: SealFn) {
    function ExplicitNonceLen(): nat {
      if isNull then 0 else nonceLen
    }

    function MaxOverhead(): nat {
      if isNull then 0 else nonceLen + overhead
    }

    function Seal(typ: nat, version': nat, seq64: nat, plain: seq<Byte>): Option<seq<Byte>> {
      if isNull then Some(plain) else seal(typ, version', seq64, plain)
    }

    function Open(typ: nat, version': nat, seq64: nat, sealed: seq<Byte>): Option<seq<Byte>> {
      if isNull then Some(sealed) else open(typ, version', seq64, sealed)
    }

    // What is assumed of the AEAD.
    ghost predicate Sound() {
      && version < 0x1_0000
      && forall typ: nat, v: nat, s: nat, plain: seq<Byte> :: seal(typ, v, s, plain).Some? ==>
           && open(typ, v, s, seal(typ, v, s, plain).value) == Some(plain)
           && nonceLen <= |seal(typ, v, s, plain).value| <= |plain| + nonceLen + overhead
    }
  }
}
