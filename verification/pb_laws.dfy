// Laws of the decoder on any bytes: it is local, so messages can be put together and unknown
// fields put in.

module PbLaws {
  import opened Wire
  import opened PbVarint
  import opened PbMessages
  import opened PbEncoding
  import opened PbDecoding
  import opened PbBounds
  import opened PbMerge
  import opened PbMerging
  import opened PbOverflow

  // What is decoded from the front of some bytes does not depend on what follows.
  predicate SameWithTail<T(==)>(p: Parsed<T>, q: Parsed<T>, tail: seq<Byte>) {
    p.Parsed? ==> q == Parsed(p.value, p.rest + tail)
  }

  lemma {:induction false} TakeIgnoresTail(b: seq<Byte>, n: nat, tail: seq<Byte>)
    ensures SameWithTail(Take(b, n), Take(b + tail, n), tail)
  {
    if n <= |b| {
      assert (b + tail)[..n] == b[..n] && (b + tail)[n..] == b[n..] + tail;
    }
  }

  lemma {:induction false} Varint32IgnoresTail(b: seq<Byte>, tail: seq<Byte>)
    ensures SameWithTail(DecodeVarint32(b), DecodeVarint32(b + tail), tail)
  {
    if DecodeVarint32(b).Parsed? {
      VarintIgnoresTail(b, tail, 5, TWO32);
    }
  }

  lemma {:induction false} TakePrefixedIgnoresTail(b: seq<Byte>, tail: seq<Byte>)
    ensures SameWithTail(TakePrefixed(b), TakePrefixed(b + tail), tail)
  {
    Varint32IgnoresTail(b, tail);
    var n := DecodeVarint32(b);
    if n.Parsed? {
      TakeIgnoresTail(n.rest, n.value, tail);
    }
  }

  lemma {:induction false} SkipIgnoresTail(wireType: nat, b: seq<Byte>, tail: seq<Byte>)
    ensures SameWithTail(SkipField(wireType, b), SkipField(wireType, b + tail), tail)
  {
    TakeIgnoresTail(b, 8, tail);
    TakeIgnoresTail(b, 4, tail);
    TakePrefixedIgnoresTail(b, tail);
    var k := Continued(b);
    if k < |b| {
      ContinuedIgnoresTail(b, tail);
      assert (b + tail)[k + 1..] == b[k + 1..] + tail;
    }
  }

  lemma {:induction false} IntegerIgnoresTail(f: Field, b: seq<Byte>, tail: seq<Byte>)
    requires f.ltype.Varint? || f.ltype.Uvarint? || f.ltype.Svarint?
    ensures SameWithTail(DecodeInteger(f, b), DecodeInteger(f, b + tail), tail)
  {
    if DecodeVarint(b).Parsed? {
      VarintIgnoresTail(b, tail, 10, TWO64);
    }
  }

  lemma {:induction false} RawIgnoresTail(f: Field, b: seq<Byte>, tail: seq<Byte>)
    requires f.ltype.Bytes? || f.ltype.Str? || f.ltype.FixedLengthBytes?
    ensures SameWithTail(DecodeRaw(f, b), DecodeRaw(f, b + tail), tail)
  {
    Varint32IgnoresTail(b, tail);
    var n := DecodeVarint32(b);
    if n.Parsed? {
      TakeIgnoresTail(n.rest, n.value, tail);
    }
  }

  lemma {:induction false} ValueIgnoresTail(f: Field, dest: Value, b: seq<Byte>, tail: seq<Byte>)
    ensures SameWithTail(DecodeValue(f, dest, b), DecodeValue(f, dest, b + tail), tail)
  {
    match f.ltype
    case Varint => IntegerIgnoresTail(f, b, tail);
    case Uvarint => IntegerIgnoresTail(f, b, tail);
    case Svarint => IntegerIgnoresTail(f, b, tail);
    case Fixed32 => TakeIgnoresTail(b, 4, tail);
    case Fixed64 => TakeIgnoresTail(b, 8, tail);
    case Bytes => RawIgnoresTail(f, b, tail);
    case Str => RawIgnoresTail(f, b, tail);
    case FixedLengthBytes => RawIgnoresTail(f, b, tail);
    case Submessage => TakePrefixedIgnoresTail(b, tail);
  }

  lemma {:induction false} FieldIgnoresTail(f: Field, s: Slot, wireType: nat, b: seq<Byte>, tail: seq<Byte>)
    ensures SameWithTail(DecodeField(f, s, wireType, b), DecodeField(f, s, wireType, b + tail), tail)
  {
    TakePrefixedIgnoresTail(b, tail);
    ValueIgnoresTail(f, DefaultValue(f), b, tail);
    if !s.Many? {
      ValueIgnoresTail(f, Destination(f, s), b, tail);
    }
  }

  // The bytes are whole fields, and decoding them leads from one state to the other.
  ghost predicate Leads(d: Descriptor, m: Value, seen: set<nat>, b: seq<Byte>, w: Value, seen': set<nat>)
    decreases |b|
  {
    && m.Msg?
    && if b == [] then w == m && seen' == seen
       else
         var t := DecodeTag(b);
         && t.Tag?
         && var s := DecodeStep(d, m, seen, t);
            s.At? && Leads(d, s.msg, s.seen, s.rest, w, seen')
  }

  lemma {:induction false} RoundIgnoresTail(d: Descriptor, m: Value, seen: set<nat>, b: seq<Byte>, tail: seq<Byte>)
    requires m.Msg? && b != [] && DecodeTag(b).Tag? && DecodeStep(d, m, seen, DecodeTag(b)).At?
    ensures DecodeTag(b + tail) == DecodeTag(b).(rest := DecodeTag(b).rest + tail)
    ensures DecodeStep(d, m, seen, DecodeTag(b + tail))
         == DecodeStep(d, m, seen, DecodeTag(b)).(rest := DecodeStep(d, m, seen, DecodeTag(b)).rest + tail)
  {
    Varint32IgnoresTail(b, tail);
    var t := DecodeTag(b);
    var i := Find(d.fields, t.tag, 0);
    SkipIgnoresTail(t.wireType, t.rest, tail);
    if i < |d.fields| && d.fields[i].slot < |m.slots| {
      FieldIgnoresTail(d.fields[i], m.slots[d.fields[i].slot], t.wireType, t.rest, tail);
    }
  }

  // After whole fields the decoder goes on as from the state they lead to.
  lemma {:induction false} LeadsOn(d: Descriptor, m: Value, seen: set<nat>, b: seq<Byte>, w: Value, seen': set<nat>,
                                   tail: seq<Byte>)
    requires Leads(d, m, seen, b, w, seen')
    ensures Continues(d, m, seen, b + tail, w, seen', tail)
    decreases |b|
  {
    if b == [] {
      assert b + tail == tail;
    } else {
      RoundIgnoresTail(d, m, seen, b, tail);
      var s := DecodeStep(d, m, seen, DecodeTag(b));
      LeadsOn(d, s.msg, s.seen, s.rest, w, seen', tail);
    }
  }

  // A field the descriptor does not have: any tag, and data its wire type lets be skipped.
  ghost predicate Unknown(d: Descriptor, u: seq<Byte>) {
    && u != [] && DecodeTag(u).Tag?
    && Find(d.fields, DecodeTag(u).tag, 0) == |d.fields|
    && !(d.fields == [] && DecodeTag(u).tag == 0)
    && SkipField(DecodeTag(u).wireType, DecodeTag(u).rest) == Parsed((), [])
  }

  // Inserting unknown fields between fields changes nothing.
  lemma {:induction false} UnknownIsSkipped(d: Descriptor, m: Value, seen: set<nat>, a: seq<Byte>, u: seq<Byte>,
                                            b: seq<Byte>, w: Value, seen': set<nat>)
    requires Leads(d, m, seen, a, w, seen') && Unknown(d, u)
    ensures DecodeLoop(d, m, seen, a + u + b) == DecodeLoop(d, m, seen, a + b)
  {
    LeadsOn(d, m, seen, a, w, seen', u + b);
    LeadsOn(d, m, seen, a, w, seen', b);
    assert a + u + b == a + (u + b);
    var s := DecodeStep(d, w, seen', DecodeTag(u));
    assert s == At(w, seen', []);
    assert Leads(d, w, seen', [], w, seen');
    LeadsOn(d, w, seen', u, w, seen', b);
  }

  // What is decoded does not depend on which required fields were seen before.
  lemma {:induction false} SeenOnlyGrows(d: Descriptor, m: Value, seen: set<nat>, b: seq<Byte>)
    requires m.Msg?
    ensures DecodeLoop(d, m, seen, b).Stopped? <==> DecodeLoop(d, m, {}, b).Stopped?
    ensures DecodeLoop(d, m, {}, b).At? ==>
              DecodeLoop(d, m, seen, b) == DecodeLoop(d, m, {}, b).(seen := seen + DecodeLoop(d, m, {}, b).seen)
    decreases |b|
  {
    if b != [] {
      var t := DecodeTag(b);
      if t.Tag? {
        var p, q := DecodeStep(d, m, seen, t), DecodeStep(d, m, {}, t);
        if p.At? {
          SeenOnlyGrows(d, p.msg, p.seen, p.rest);
          SeenOnlyGrows(d, q.msg, q.seen, q.rest);
          var r := DecodeLoop(d, p.msg, {}, p.rest);
          if r.At? {
            assert p.seen + r.seen == seen + (q.seen + r.seen);
          }
        }
      } else if t.Eof? {
        assert seen + {} == seen;
      }
    } else {
      assert seen + {} == seen;
    }
  }

  // Concatenation is merge: when a is what pb_encode wrote for v, decoding a and then any b is
  // decoding b into the merged message, but for the check on required fields: a has them all.
  lemma {:induction false} ConcatenationMerges(d: Descriptor, m: Value, v: Value, a: seq<Byte>, b: seq<Byte>)
    requires WellFormed(d) && Fits(d, m, false) && Fits(d, v, true)
    requires EncodeMessage(d, v) == Some(a) && |a| < TWO32
    ensures DecodeNoInit(d, m, a) == if Room(d, m, v) then Parsed(MergeMessage(d, m, v), []) else Failed
    ensures !Room(d, m, v) ==> DecodeNoInit(d, m, a + b).Failed?
    ensures Room(d, m, v) ==>
              var p := DecodeLoop(d, MergeMessage(d, m, v), {}, b);
              && DecodeNoInit(d, m, a + b) == (if p.Stopped? then Failed else Parsed(p.msg, p.rest))
              && (DecodeNoInit(d, m, a + b) == DecodeNoInit(d, MergeMessage(d, m, v), b)
                  <==> p.Stopped? || RequiredSeen(d.fields, p.seen))
  {
    MergesIfRoom(d, m, v, a);
    if Room(d, m, v) {
      LoopMerges(d, m, v, 0, {}, a, b);
      SeenOnlyGrows(d, MergeMessage(d, m, v), SeenFrom(d.fields, 0, {}), b);
    } else {
      var j :| 0 <= j < |d.fields| && !RoomAt(d, j, m, v);
      LoopStops(d, m, v, 0, j, {}, a, b);
    }
  }

  // Decoding one part and then another into the result.
  function DecodeThen(d: Descriptor, m: Value, a: seq<Byte>, b: seq<Byte>): Parsed<Value>
    requires m.Msg?
  {
    var p := DecodeNoInit(d, m, a);
    if p.Failed? then Failed else DecodeNoInit(d, p.value, b)
  }

  // Decoding a ++ b is decoding a and then b, for every b, exactly when the message has no required
  // field or a does not fit in; otherwise the second call misses the required fields of a, already
  // when b is empty.
  lemma {:induction false} ConcatenationAgrees(d: Descriptor, m: Value, v: Value, a: seq<Byte>)
    requires WellFormed(d) && Fits(d, m, false) && Fits(d, v, true)
    requires EncodeMessage(d, v) == Some(a) && |a| < TWO32
    ensures (forall b :: DecodeNoInit(d, m, a + b) == DecodeThen(d, m, a, b))
       <==> !Room(d, m, v) || forall i :: 0 <= i < |d.fields| ==> !d.fields[i].htype.Required?
  {
    forall b
      ensures !Room(d, m, v) ==> DecodeNoInit(d, m, a + b) == DecodeThen(d, m, a, b)
      ensures (forall i :: 0 <= i < |d.fields| ==> !d.fields[i].htype.Required?)
              ==> DecodeNoInit(d, m, a + b) == DecodeThen(d, m, a, b)
    {
      ConcatenationMerges(d, m, v, a, b);
    }
    if Room(d, m, v) && exists i :: 0 <= i < |d.fields| && d.fields[i].htype.Required? {
      ConcatenationMerges(d, m, v, a, []);
      assert DecodeNoInit(d, m, a + []) != DecodeThen(d, m, a, []);
    }
  }

  lemma {:induction false} LoopHasNoRoom(d: Descriptor, m: Value, v: Value, e: seq<Byte>)
    requires WellFormed(d) && Fits(d, m, false) && Fits(d, v, true) && !Room(d, m, v)
    requires EncodeMessage(d, v) == Some(e) && |e| < TWO32
    ensures DecodeLoop(d, m, {}, e).Stopped?
  {
    var j :| 0 <= j < |d.fields| && !RoomAt(d, j, m, v);
    LoopStops(d, m, v, 0, j, {}, e, []);
    assert e + [] == e;
  }

  // And always when b is itself what pb_encode wrote.
  lemma {:induction false} EncodingsConcatenate(d: Descriptor, m: Value, v: Value, a: seq<Byte>, u: Value,
                                                b: seq<Byte>)
    requires WellFormed(d) && Fits(d, m, false) && Fits(d, v, true) && Fits(d, u, true)
    requires EncodeMessage(d, v) == Some(a) && |a| < TWO32
    requires EncodeMessage(d, u) == Some(b) && |b| < TWO32
    ensures DecodeNoInit(d, m, a + b) == DecodeThen(d, m, a, b)
    ensures Room(d, m, v) && Room(d, MergeMessage(d, m, v), u) ==>
              DecodeNoInit(d, m, a + b) == Parsed(MergeMessage(d, MergeMessage(d, m, v), u), [])
  {
    ConcatenationMerges(d, m, v, a, b);
    if Room(d, m, v) {
      var w := MergeMessage(d, m, v);
      LoopFits(d, m, {}, a);
      if Room(d, w, u) {
        LoopMerges(d, w, u, 0, {}, b, []);
        assert b + [] == b;
      } else {
        LoopHasNoRoom(d, w, u, b);
      }
    }
  }

  // A string survives exactly when it ends inside its array, before any other zero byte.
  lemma {:induction false} StringSurvives(f: Field, dest: Value, b: seq<Byte>, tail: seq<Byte>)
    requires f.ltype.Str? && |b| <= f.dataSize
    ensures EncodeValue(f, Raw(b)).Some?
    ensures DecodeValue(f, dest, EncodeValue(f, Raw(b)).value + tail) == Parsed(Raw(b), tail)
            <==> StrLen(b) == |b| < f.dataSize
  {
    var s := b[..StrLen(b)];
    PrefixedIsTaken(s, tail);
    assert s == b <==> StrLen(b) == |b|;
    assert (s + tail)[..|s|] == s && (s + tail)[|s|..] == tail;
  }

  // A message that is cut inside a tag is taken to end before it exactly when at most five bytes
  // with the continuation bit are left; with more of them decoding fails.
  lemma {:induction false} CutTagEndsMessage(d: Descriptor, m: Value, seen: set<nat>, a: seq<Byte>, w: Value,
                                             seen': set<nat>, cut: seq<Byte>)
    requires Leads(d, m, seen, a, w, seen')
    requires Continued(cut) == |cut|
    ensures DecodeLoop(d, m, seen, a + cut) == if |cut| <= 5 then At(w, seen', []) else Stopped
  {
    LeadsOn(d, m, seen, a, w, seen', cut);
    if cut != [] {
      assert DecodeTag(cut) == if |cut| <= 5 then Eof([]) else BadTag;
    }
  }
}
