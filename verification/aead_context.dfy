// SSLAEADContext: how a record's nonce and additional data are put together around an
// abstract AEAD.

module AeadContext {
  import opened Wire
  import Words
  import Ciphers

  const SSL3_VERSION := 0x300
  const TLS1_3_VERSION := 0x304
  const MAX_FIXED_NONCE := 12
  const MAX_NONCE := 16

  // nonce, additional data, input
  type AeadFn = (seq<Byte>, seq<Byte>, seq<Byte>) -> Option<seq<Byte>>

  datatype Aead = Aead(nonceLen: nat, overhead: nat, fixedOverhead: bool, seal: AeadFn, open: AeadFn) {
    // What is assumed of the primitive.
    ghost predicate Sound() {
      && nonceLen <= MAX_NONCE
      && forall n: seq<Byte>, ad: seq<Byte>, p: seq<Byte> :: seal(n, ad, p).Some? ==>
           && open(n, ad, seal(n, ad, p).value) == Some(p)
           && |seal(n, ad, p).value| <= |p| + overhead
           && (fixedOverhead ==> |seal(n, ad, p).value| == |p| + overhead)
    }
  }

  datatype Algorithm = AesGcm | ChaCha20Poly1305 | OtherEnc

  datatype Context = Context(aead: Aead, fixedNonce: seq<Byte>, variableLen: nat, included: bool, random: bool,
                             xorFixed: bool, omitLength: bool, omitVersion: bool, omitAd: bool) {
    // The source's assertions on the flags it sets up.
    predicate Valid() {
      && |fixedNonce| <= MAX_FIXED_NONCE
      && (random ==> included)
      && (!random ==> variableLen == 8)
      && (included ==> !xorFixed)
      && (if xorFixed then variableLen <= |fixedNonce| else |fixedNonce| + variableLen <= MAX_NONCE)
      && (!omitLength ==> aead.fixedOverhead)
    }

    function ExplicitNonceLen(): nat {
      if included then variableLen else 0
    }

    function MaxOverhead(): nat {
      ExplicitNonceLen() + aead.overhead
    }
  }

  // SSLAEADContext::Create, for the key sizes the cipher's table entry asks for.
  function Create(aead: Aead, enc: Algorithm, protocolVersion: nat, fixedIv: seq<Byte>,
                  macKeyEmpty: bool): (c: Context)
    requires aead.nonceLen <= MAX_NONCE
    requires macKeyEmpty ==> aead.nonceLen == 12 && aead.fixedOverhead
    requires macKeyEmpty ==> |fixedIv| == if protocolVersion >= TLS1_3_VERSION || enc == ChaCha20Poly1305 then 12 else 4
    requires macKeyEmpty ==> enc == AesGcm || enc == ChaCha20Poly1305
    requires !macKeyEmpty ==> protocolVersion < TLS1_3_VERSION
    ensures c.Valid() && c.aead == aead
    ensures c.random <==> !macKeyEmpty
    ensures c.included <==> protocolVersion < TLS1_3_VERSION && (macKeyEmpty ==> enc == AesGcm)
  {
    if macKeyEmpty then
      var xor := enc == ChaCha20Poly1305;
      var variable := if xor then 8 else aead.nonceLen - |fixedIv|;
      if protocolVersion >= TLS1_3_VERSION then
        Context(aead, fixedIv, 8, false, false, true, false, false, true)
      else
        Context(aead, fixedIv, variable, enc == AesGcm, false, xor, false, false, false)
    else
      Context(aead, [], aead.nonceLen, true, true, false, true, protocolVersion == SSL3_VERSION, false)
  }

  function XorBytes(a: seq<Byte>, b: seq<Byte>): (r: seq<Byte>)
    requires |a| == |b|
    ensures |r| == |a|
    ensures forall i :: 0 <= i < |a| ==> r[i] == Words.Xor(a[i], b[i])
  {
    if a == [] then [] else
      XorByte(a[0], b[0]);
      [Words.Xor(a[0], b[0])] + XorBytes(a[1..], b[1..])
  }

  lemma {:induction false} XorByte(a: Byte, b: Byte)
    ensures Words.Xor(a, b) < 0x100
  {
    assert Words.Pow2(8) == 0x100 by {
      assert Words.Pow2(4) == 16;
    }
    Words.XorBelow(a, b, 8);
  }

  function Nonce(c: Context, variable: seq<Byte>): (n: seq<Byte>)
    requires c.Valid() && |variable| == c.variableLen
    ensures |n| <= MAX_NONCE
  {
    if c.xorFixed then XorBytes(Zeros(|c.fixedNonce| - c.variableLen) + variable, c.fixedNonce)
    else c.fixedNonce + variable
  }

  function AdditionalData(c: Context, typ: nat, version: nat, seqNum: seq<Byte>, plainLen: nat): seq<Byte> {
    if c.omitAd then []
    else
      seqNum + BigEndian(typ, 1) + (if c.omitVersion then [] else BigEndian(version, 2))
      + (if c.omitLength then [] else BigEndian(plainLen, 2))
  }

  // The whole record body: the explicit nonce, when there is one, and the ciphertext.
  function Seal(c: Context, random: seq<Byte>, typ: nat, version: nat, seqNum: seq<Byte>,
                plain: seq<Byte>): Option<seq<Byte>>
    requires c.Valid() && |seqNum| == 8 && |random| == c.variableLen
  {
    var variable := if c.random then random else seqNum;
    match c.aead.seal(Nonce(c, variable), AdditionalData(c, typ, version, seqNum, |plain|), plain)
    case None => None
    case Some(sealed) => Some((if c.included then variable else []) + sealed)
  }

  function Open(c: Context, typ: nat, version: nat, seqNum: seq<Byte>, body: seq<Byte>): Option<seq<Byte>>
    requires c.Valid() && |seqNum| == 8
  {
    if !c.omitLength && |body| < c.MaxOverhead() then None
    else if c.included && |body| < c.variableLen then None
    else
      var plainLen := if c.omitLength then 0 else |body| - c.MaxOverhead();
      var variable := if c.included then body[..c.variableLen] else seqNum;
      c.aead.open(Nonce(c, variable), AdditionalData(c, typ, version, seqNum, plainLen), body[c.ExplicitNonceLen()..])
  }

  // The XOR step both directions share, in place.
  method XorInto(nonce: array<Byte>, fixed: seq<Byte>)
    requires |fixed| <= nonce.Length
    modifies nonce
    ensures nonce[..|fixed|] == XorBytes(old(nonce[..|fixed|]), fixed)
  {
    var i := 0;
    while i < |fixed|
      invariant i <= |fixed|
      invariant forall j :: 0 <= j < i ==> nonce[j] == Words.Xor(old(nonce[j]), fixed[j])
      invariant forall j :: i <= j < |fixed| ==> nonce[j] == old(nonce[j])
    {
      XorByte(nonce[i], fixed[i]);
      nonce[i] := Words.Xor(nonce[i], fixed[i]);
      i := i + 1;
    }
  }

  method Fill(a: array<Byte>, at: nat, bytes: seq<Byte>)
    requires at + |bytes| <= a.Length
    modifies a
    ensures a[..at] == old(a[..at])
    ensures a[at..at + |bytes|] == bytes
    ensures a[at + |bytes|..] == old(a[at + |bytes|..])
  {
    forall j | 0 <= j < |bytes| {
      a[at + j] := bytes[j];
    }
  }

  // The nonce assembly of SSLAEADContext::Open.
  method OpenNonce(c: Context, seqNum: seq<Byte>, body: seq<Byte>)
    returns (nonce: array<Byte>, nonceLen: nat, rest: Option<seq<Byte>>)
    requires c.Valid() && |seqNum| == 8
    ensures rest.None? <==> c.included && |body| < c.variableLen
    ensures rest.Some? ==> rest.value == body[c.ExplicitNonceLen()..]
    ensures rest.Some? ==> nonceLen <= nonce.Length
    ensures rest.Some? ==> nonce[..nonceLen] == Nonce(c, if c.included then body[..c.variableLen] else seqNum)
  {
    nonce := new Byte[MAX_NONCE];
    rest := Some(body);
    if c.xorFixed {
      nonceLen := |c.fixedNonce| - c.variableLen;
      Fill(nonce, 0, Zeros(nonceLen));
    } else {
      Fill(nonce, 0, c.fixedNonce);
      nonceLen := |c.fixedNonce|;
    }
    if c.included {
      if |body| < c.variableLen {
        rest := None;
        return;
      }
      Fill(nonce, nonceLen, body[..c.variableLen]);
      rest := Some(body[c.variableLen..]);
    } else {
      Fill(nonce, nonceLen, seqNum);
    }
    assert nonce[..nonceLen + c.variableLen]
        == (if c.xorFixed then Zeros(|c.fixedNonce| - c.variableLen) else c.fixedNonce)
           + (if c.included then body[..c.variableLen] else seqNum);
    nonceLen := nonceLen + c.variableLen;
    if c.xorFixed {
      XorInto(nonce, c.fixedNonce);
    }
  }

  // The nonce assembly of SSLAEADContext::SealScatter; random stands for what RAND_bytes fills in.
  method SealNonce(c: Context, random: seq<Byte>, seqNum: seq<Byte>)
    returns (nonce: array<Byte>, nonceLen: nat, prefix: seq<Byte>)
    requires c.Valid() && |seqNum| == 8 && |random| == c.variableLen
    ensures nonceLen <= nonce.Length
    ensures nonce[..nonceLen] == Nonce(c, if c.random then random else seqNum)
    ensures prefix == if c.included then (if c.random then random else seqNum) else []
  {
    nonce := new Byte[MAX_NONCE];
    if c.xorFixed {
      nonceLen := |c.fixedNonce| - c.variableLen;
      Fill(nonce, 0, Zeros(nonceLen));
    } else {
      Fill(nonce, 0, c.fixedNonce);
      nonceLen := |c.fixedNonce|;
    }
    if c.random {
      Fill(nonce, nonceLen, random);
    } else {
      Fill(nonce, nonceLen, seqNum);
    }
    assert nonce[..nonceLen + c.variableLen]
        == (if c.xorFixed then Zeros(|c.fixedNonce| - c.variableLen) else c.fixedNonce)
           + (if c.random then random else seqNum);
    nonceLen := nonceLen + c.variableLen;
    prefix := [];
    if c.included {
      prefix := nonce[|c.fixedNonce|..|c.fixedNonce| + c.variableLen];
    }
    if c.xorFixed {
      XorInto(nonce, c.fixedNonce);
    }
  }

  // Open rebuilds the nonce and the additional data Seal used, so it gives the input back.
  lemma {:induction false} OpenInvertsSeal(c: Context, random: seq<Byte>, typ: nat, version: nat, seqNum: seq<Byte>,
                                           plain: seq<Byte>)
    requires c.Valid() && c.aead.Sound() && |seqNum| == 8 && |random| == c.variableLen
    requires Seal(c, random, typ, version, seqNum, plain).Some?
    ensures Open(c, typ, version, seqNum, Seal(c, random, typ, version, seqNum, plain).value) == Some(plain)
    ensures c.ExplicitNonceLen() <= |Seal(c, random, typ, version, seqNum, plain).value| <= |plain| + c.MaxOverhead()
  {
  }

  // Which bytes are authenticated beside the text: the record number, the type, and the version and
  // the length, most significant byte first, unless the context leaves them out.
  lemma {:induction false} AdditionalDataBytes(c: Context, typ: Byte, version: nat, seqNum: seq<Byte>, plainLen: nat)
    requires |seqNum| == 8 && version < 0x1_0000 && plainLen < 0x1_0000
    ensures AdditionalData(c, typ, version, seqNum, plainLen) ==
              if c.omitAd then []
              else seqNum + [typ] + (if c.omitVersion then [] else [version / 256, version % 256])
                   + (if c.omitLength then [] else [plainLen / 256, plainLen % 256])
  {
    assert BigEndian(typ, 1) == [typ];
    TwoBytes(version);
    TwoBytes(plainLen);
  }

  // Under one context no two records with another number, type, version or length share it.
  lemma {:induction false} AdditionalDataNamesRecord(c: Context, typ: Byte, version: nat, s: seq<Byte>, len: nat,
                                                     typ': Byte, version': nat, s': seq<Byte>, len': nat)
    requires !c.omitAd && |s| == |s'| == 8
    requires version < 0x1_0000 && len < 0x1_0000 && version' < 0x1_0000 && len' < 0x1_0000
    ensures AdditionalData(c, typ, version, s, len) == AdditionalData(c, typ', version', s', len')
       <==> s == s' && typ == typ' && (c.omitVersion || version == version') && (c.omitLength || len == len')
  {
    AdditionalDataBytes(c, typ, version, s, len);
    AdditionalDataBytes(c, typ', version', s', len');
    var a, b := AdditionalData(c, typ, version, s, len), AdditionalData(c, typ', version', s', len');
    if a == b {
      assert a[..8] == s && b[..8] == s' && a[8] == typ && b[8] == typ';
      if !c.omitVersion {
        assert a[9] == version / 256 && a[10] == version % 256 && b[9] == version' / 256 && b[10] == version' % 256;
      }
      if !c.omitLength {
        var n := |a|;
        assert a[n - 2] == len / 256 && a[n - 1] == len % 256 && b[n - 2] == len' / 256 && b[n - 1] == len' % 256;
      }
    }
  }

  // What is sealed, for each kind of cipher. AES-GCM (RFC 5288): the fixed four bytes and the record
  // number make the nonce, and the number goes before the ciphertext.
  lemma {:induction false} GcmSeals(aead: Aead, version: nat, iv: seq<Byte>, random: seq<Byte>, typ: Byte,
                                    recordVersion: nat, seqNum: seq<Byte>, plain: seq<Byte>)
    requires aead.nonceLen == 12 && aead.fixedOverhead && |iv| == 4 && version < TLS1_3_VERSION
    requires |random| == 8 && |seqNum| == 8 && recordVersion < 0x1_0000 && |plain| < 0x1_0000
    ensures var c := Create(aead, AesGcm, version, iv, true);
            var ad := seqNum + [typ] + [recordVersion / 256, recordVersion % 256] + [|plain| / 256, |plain| % 256];
            var sealed := aead.seal(iv + seqNum, ad, plain);
            Seal(c, random, typ, recordVersion, seqNum, plain) ==
              if sealed.None? then None else Some(seqNum + sealed.value)
  {
    AdditionalDataBytes(Create(aead, AesGcm, version, iv, true), typ, recordVersion, seqNum, |plain|);
  }

  // Opening takes the nonce from the record, but authenticates the number it expects and the length
  // the text must have; what is too short for that is refused.
  lemma {:induction false} GcmOpens(aead: Aead, version: nat, iv: seq<Byte>, typ: Byte, recordVersion: nat,
                                    seqNum: seq<Byte>, explicit: seq<Byte>, sealed: seq<Byte>)
    requires aead.nonceLen == 12 && aead.fixedOverhead && |iv| == 4 && version < TLS1_3_VERSION
    requires |explicit| == 8 && |seqNum| == 8 && recordVersion < 0x1_0000 && |sealed| < 0x1_0000
    ensures var n := |sealed| - aead.overhead;
            Open(Create(aead, AesGcm, version, iv, true), typ, recordVersion, seqNum, explicit + sealed) ==
              if n < 0 then None
              else aead.open(iv + explicit,
                             seqNum + [typ] + [recordVersion / 256, recordVersion % 256] + [n / 256, n % 256], sealed)
  {
    if |sealed| >= aead.overhead {
      AdditionalDataBytes(Create(aead, AesGcm, version, iv, true), typ, recordVersion, seqNum,
                          |sealed| - aead.overhead);
    }
    assert (explicit + sealed)[..8] == explicit && (explicit + sealed)[8..] == sealed;
  }

  // ChaCha20-Poly1305 (RFC 7905): the number, padded on the left, is XORed into the fixed twelve bytes.
  lemma {:induction false} ChaChaSeals(aead: Aead, version: nat, iv: seq<Byte>, random: seq<Byte>, typ: Byte,
                                       recordVersion: nat, seqNum: seq<Byte>, plain: seq<Byte>, nonce: seq<Byte>)
    requires aead.nonceLen == 12 && aead.fixedOverhead && |iv| == |nonce| == 12 && version < TLS1_3_VERSION
    requires |random| == 8 && |seqNum| == 8 && recordVersion < 0x1_0000 && |plain| < 0x1_0000
    requires forall i :: 0 <= i < 12 ==> nonce[i] == Words.Xor(if i < 4 then 0 else seqNum[i - 4], iv[i])
    ensures var c := Create(aead, ChaCha20Poly1305, version, iv, true);
            var ad := seqNum + [typ] + [recordVersion / 256, recordVersion % 256] + [|plain| / 256, |plain| % 256];
            Seal(c, random, typ, recordVersion, seqNum, plain) == aead.seal(nonce, ad, plain)
  {
    var c := Create(aead, ChaCha20Poly1305, version, iv, true);
    AdditionalDataBytes(c, typ, recordVersion, seqNum, |plain|);
    XoredNonce(c, iv, seqNum, nonce);
    var sealed := aead.seal(nonce, AdditionalData(c, typ, recordVersion, seqNum, |plain|), plain);
    assert sealed.Some? ==> [] + sealed.value == sealed.value;
  }

  lemma {:induction false} XoredNonce(c: Context, iv: seq<Byte>, seqNum: seq<Byte>, nonce: seq<Byte>)
    requires c.Valid() && c.xorFixed && c.fixedNonce == iv && c.variableLen == 8
    requires |iv| == |nonce| == 12 && |seqNum| == 8
    requires forall i :: 0 <= i < 12 ==> nonce[i] == Words.Xor(if i < 4 then 0 else seqNum[i - 4], iv[i])
    ensures Nonce(c, seqNum) == nonce
  {
    var padded := Zeros(4) + seqNum;
    forall i | 0 <= i < 12
      ensures Nonce(c, seqNum)[i] == nonce[i]
    {
      assert padded[i] == if i < 4 then 0 else seqNum[i - 4];
    }
  }

  // TLS 1.3: the same nonce for any AEAD, and no additional data.
  lemma {:induction false} Tls13Seals(aead: Aead, enc: Algorithm, iv: seq<Byte>, random: seq<Byte>, typ: Byte,
                                      recordVersion: nat, seqNum: seq<Byte>, plain: seq<Byte>, nonce: seq<Byte>)
    requires aead.nonceLen == 12 && aead.fixedOverhead && |iv| == |nonce| == 12 && !enc.OtherEnc?
    requires |random| == 8 && |seqNum| == 8
    requires forall i :: 0 <= i < 12 ==> nonce[i] == Words.Xor(if i < 4 then 0 else seqNum[i - 4], iv[i])
    ensures Seal(Create(aead, enc, TLS1_3_VERSION, iv, true), random, typ, recordVersion, seqNum, plain) ==
              aead.seal(nonce, [], plain)
  {
    var c := Create(aead, enc, TLS1_3_VERSION, iv, true);
    XoredNonce(c, iv, seqNum, nonce);
    var sealed := aead.seal(nonce, [], plain);
    assert sealed.Some? ==> [] + sealed.value == sealed.value;
  }

  // The older ciphers, a MAC and an encryption in one: a random explicit nonce, and no length.
  lemma {:induction false} StatefulSeals(aead: Aead, enc: Algorithm, version: nat, random: seq<Byte>, typ: Byte,
                                         recordVersion: nat, seqNum: seq<Byte>, plain: seq<Byte>)
    requires aead.nonceLen <= MAX_NONCE && SSL3_VERSION < version < TLS1_3_VERSION
    requires |random| == aead.nonceLen && |seqNum| == 8 && recordVersion < 0x1_0000 && |plain| < 0x1_0000
    ensures var c := Create(aead, enc, version, [], false);
            var sealed := aead.seal(random, seqNum + [typ] + [recordVersion / 256, recordVersion % 256], plain);
            Seal(c, random, typ, recordVersion, seqNum, plain) ==
              if sealed.None? then None else Some(random + sealed.value)
  {
    var c := Create(aead, enc, version, [], false);
    AdditionalDataBytes(c, typ, recordVersion, seqNum, |plain|);
    assert [] + random == random;
    var ad := seqNum + [typ] + [recordVersion / 256, recordVersion % 256];
    assert ad + [] == ad;
  }

  lemma {:induction false} XorBytesCancel(a: seq<Byte>, b: seq<Byte>, k: seq<Byte>)
    requires |a| == |b| == |k| && XorBytes(a, k) == XorBytes(b, k)
    ensures a == b
  {
    forall i | 0 <= i < |a|
      ensures a[i] == b[i]
    {
      assert XorBytes(a, k)[i] == XorBytes(b, k)[i];
      Words.XorUndoesItself(a[i], k[i]);
      Words.XorUndoesItself(b[i], k[i]);
    }
  }

  // Two nonces of one context agree only when their variable parts do.
  lemma {:induction false} NonceInjective(c: Context, v: seq<Byte>, w: seq<Byte>)
    requires c.Valid() && |v| == |w| == c.variableLen
    ensures Nonce(c, v) == Nonce(c, w) <==> v == w
  {
    if Nonce(c, v) == Nonce(c, w) {
      if c.xorFixed {
        var z := Zeros(|c.fixedNonce| - c.variableLen);
        XorBytesCancel(z + v, z + w, c.fixedNonce);
        assert (z + v)[|z|..] == v && (z + w)[|z|..] == w;
      } else {
        assert (c.fixedNonce + v)[|c.fixedNonce|..] == v && (c.fixedNonce + w)[|c.fixedNonce|..] == w;
      }
    }
  }

  lemma {:induction false} Limit8()
    ensures Limit(8) == 0x1_0000 * SEQUENCE_LIMIT
  {
  }

  // Without random nonces, the nonce determines the record's epoch and sequence number.
  lemma {:induction false} NonceNamesRecord(c: Context, e: nat, s: nat, f: nat, t: nat)
    requires c.Valid() && !c.random
    requires e < 0x1_0000 && f < 0x1_0000 && s < SEQUENCE_LIMIT && t < SEQUENCE_LIMIT
    requires Nonce(c, BigEndian(Sequence64(e, s), 8)) == Nonce(c, BigEndian(Sequence64(f, t), 8))
    ensures e == f && s == t
  {
    var v, w := BigEndian(Sequence64(e, s), 8), BigEndian(Sequence64(f, t), 8);
    NonceInjective(c, v, w);
    Limit8();
    assert v[0..8] == v && w[0..8] == w;
    GetInverts(Sequence64(e, s), 8, v, 0);
    GetInverts(Sequence64(f, t), 8, w, 0);
  }

  // Every context, with its random bytes read from any oracle, is a cipher of the kind the
  // record layer's theorems assume.
  function AsCipher(c: Context, version: nat, oracle: nat -> seq<Byte>): Ciphers.Cipher
    requires c.Valid() && forall n: nat :: |oracle(n)| == c.variableLen
  {
    Ciphers.Cipher(false, version, c.ExplicitNonceLen(), c.aead.overhead,
                   (typ: nat, v: nat, s: nat, plain: seq<Byte>) => Seal(c, oracle(s), typ, v, BigEndian(s, 8), plain),
                   (typ: nat, v: nat, s: nat, body: seq<Byte>) => Open(c, typ, v, BigEndian(s, 8), body))
  }

  lemma {:induction false} ContextIsSoundCipher(c: Context, version: nat, oracle: nat -> seq<Byte>)
    requires c.Valid() && c.aead.Sound() && version < 0x1_0000
    requires forall n: nat :: |oracle(n)| == c.variableLen
    ensures AsCipher(c, version, oracle).Sound()
  {
  }
}
