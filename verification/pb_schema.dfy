// Readers with another descriptor than the writer's: what they do not know they skip.

module PbSchema {
  import opened Wire
  import opened PbVarint
  import opened PbMessages
  import opened PbEncoding
  import opened PbDecoding
  import opened PbMerge
  import opened PbFormat
  import opened PbWire

  // Skipping an encoded value by its field's wire type takes all of it and nothing more.
  lemma {:induction false} EncodedIsSkipped(f: Field, v: Value, e: seq<Byte>, tail: seq<Byte>)
    requires EncodeValue(f, v) == Some(e) && |e| < TWO32
    ensures SkipField(f.ltype.WireType(), e + tail) == Parsed((), tail)
  {
    if f.ltype.Varint? || f.ltype.Uvarint? || f.ltype.Svarint? {
      var n := if f.ltype.Varint? then Unsigned64(v.n) else if f.ltype.Uvarint? then v.n else ZigZag(v.n);
      VarintShape(n, tail);
      assert (e + tail)[|e|..] == tail;
    } else if f.ltype.Fixed32? || f.ltype.Fixed64? {
      assert (e + tail)[|e|..] == tail;
    } else {
      var b := if f.ltype.Submessage? then EncodeMessage(f.sub, v).value
               else if f.ltype.Str? then v.bytes[..StrLen(v.bytes)] else v.bytes;
      PrefixedIsTaken(b, tail);
    }
  }

  lemma {:induction false} PackedIsSkipped(p: seq<Byte>, tail: seq<Byte>)
    requires |p| < TWO32
    ensures SkipField(WT_STRING, Prefixed(p) + tail) == Parsed((), tail)
  {
    PrefixedIsTaken(p, tail);
  }

  // The records of the fields a descriptor has.
  function Known(d: Descriptor, records: seq<Rec>): seq<Rec> {
    if records == [] then []
    else (if Find(d.fields, records[0].number, 0) < |d.fields| then [records[0]] else []) + Known(d, records[1..])
  }

  lemma {:induction false} KnownJoin(d: Descriptor, a: seq<Rec>, b: seq<Rec>)
    ensures Known(d, a + b) == Known(d, a) + Known(d, b)
    decreases |a|
  {
    if a == [] {
      assert a + b == b;
    } else {
      KnownJoin(d, a[1..], b);
      assert (a + b)[0] == a[0] && (a + b)[1..] == a[1..] + b;
    }
  }

  lemma {:induction false} KnownIsTyped(d: Descriptor, records: seq<Rec>)
    requires TypedAll(d, records)
    ensures TypedAll(d, Known(d, records))
    decreases |records|
  {
    if records != [] {
      assert TypedRec(d, records[0]);
      KnownIsTyped(d, records[1..]);
    }
  }

  // The others make no difference.
  lemma {:induction false} OnlyKnownCounts(d: Descriptor, m: Value, seen: set<nat>, records: seq<Rec>)
    requires m.Msg? && TypedAll(d, records) && TypedAll(d, Known(d, records))
    ensures TakeAll(d, m, seen, Known(d, records)) == TakeAll(d, m, seen, records)
    decreases |records|
  {
    if records != [] {
      assert TypedRec(d, records[0]);
      KnownIsTyped(d, records[1..]);
      var w := TakeRec(d, m, seen, records[0]);
      if w.Some? {
        OnlyKnownCounts(d, w.value.0, w.value.1, records[1..]);
      }
      if Find(d.fields, records[0].number, 0) < |d.fields| {
        assert Known(d, records)[1..] == Known(d, records[1..]);
      } else {
        assert Known(d, records) == Known(d, records[1..]);
      }
    }
  }

  // Two descriptors with the same field, but for its place in the struct.
  predicate SameField(f: Field, g: Field) {
    g == f.(slot := g.slot, dataOffset := g.dataOffset, sizeOffset := g.sizeOffset)
  }

  // Descriptor o has some of the fields of d, in the same order: those at these positions.
  ghost predicate Older(d: Descriptor, o: Descriptor, place: seq<nat>) {
    && |place| == |o.fields|
    && (forall j :: 0 <= j < |place| ==> place[j] < |d.fields| && SameField(d.fields[place[j]], o.fields[j]))
    && (forall j, k :: 0 <= j < k < |place| ==> place[j] < place[k])
  }

  // The same values in those fields.
  ghost predicate SameValues(d: Descriptor, o: Descriptor, place: seq<nat>, v: Value, u: Value)
    requires Older(d, o, place) && v.Msg? && u.Msg?
  {
    forall j :: 0 <= j < |place| ==>
      && o.fields[j].slot < |u.slots| && d.fields[place[j]].slot < |v.slots|
      && u.slots[o.fields[j].slot] == v.slots[d.fields[place[j]].slot]
  }

  lemma {:induction false} SamePayload(f: Field, g: Field, v: Value)
    requires SameField(f, g) && FitsValue(f, v, false)
    ensures FitsValue(g, v, false) && PayloadOf(g, v) == PayloadOf(f, v)
  {
  }

  lemma {:induction false} SameItems(f: Field, g: Field, s: Slot, k: nat)
    requires SameField(f, g) && s.Many? && k <= |s.items|
    requires forall j :: 0 <= j < |s.items| ==> FitsValue(f, s.items[j], false) && FitsValue(g, s.items[j], false)
    ensures PayloadsFrom(g, s, k) == PayloadsFrom(f, s, k) && EachFrom(g, s, k) == EachFrom(f, s, k)
    decreases |s.items| - k
  {
    if k < |s.items| {
      SamePayload(f, g, s.items[k]);
      SameItems(f, g, s, k + 1);
    }
  }

  lemma {:induction false} SameRecords(f: Field, g: Field, s: Slot)
    requires SameField(f, g) && FitsSlot(f, s, false) && FitsSlot(g, s, false)
    ensures FieldRecords(g, s) == FieldRecords(f, s)
  {
    if f.htype.Repeated? {
      SameItems(f, g, s, 0);
    } else if FieldRecords(f, s) != [] {
      SamePayload(f, g, s.value);
    }
  }

  lemma {:induction false} EachNumber(f: Field, s: Slot, k: nat, n: nat)
    requires s.Many? && k <= |s.items| && forall j :: 0 <= j < |s.items| ==> FitsValue(f, s.items[j], false)
    requires n < |EachFrom(f, s, k)|
    ensures EachFrom(f, s, k)[n].number == f.tag
    decreases |s.items| - k
  {
    if n > 0 {
      EachNumber(f, s, k + 1, n - 1);
    }
  }

  lemma {:induction false} FieldNumber(f: Field, s: Slot, n: nat)
    requires FitsSlot(f, s, false) && n < |FieldRecords(f, s)|
    ensures FieldRecords(f, s)[n].number == f.tag
  {
    if f.htype.Repeated? && !f.ltype.Packable() {
      EachNumber(f, s, 0, n);
    }
  }

  // A field's records are known or not together.
  lemma {:induction false} KnownTogether(d: Descriptor, records: seq<Rec>, number: nat)
    requires forall n :: 0 <= n < |records| ==> records[n].number == number
    ensures Known(d, records) == if Find(d.fields, number, 0) < |d.fields| then records else []
    decreases |records|
  {
    if records != [] {
      KnownTogether(d, records[1..], number);
      assert records == [records[0]] + records[1..];
    }
  }

  lemma {:induction false} KnownField(d: Descriptor, f: Field, s: Slot)
    requires FitsSlot(f, s, false)
    ensures Known(d, FieldRecords(f, s)) == if Find(d.fields, f.tag, 0) < |d.fields| then FieldRecords(f, s) else []
  {
    forall n | 0 <= n < |FieldRecords(f, s)|
      ensures FieldRecords(f, s)[n].number == f.tag
    {
      FieldNumber(f, s, n);
    }
    KnownTogether(d, FieldRecords(f, s), f.tag);
  }

  lemma TagNamesField(d: Descriptor, i: nat, k: nat)
    requires WellFormed(d) && i < |d.fields| && k < |d.fields|
    ensures d.fields[i].tag == d.fields[k].tag <==> i == k
  {
    if i != k {
      assert Apart(d.fields[if i < k then i else k], d.fields[if i < k then k else i]);
    }
  }

  // The fields of d that o has are those at its positions.
  lemma {:induction false} HasField(d: Descriptor, o: Descriptor, place: seq<nat>, i: nat)
    requires WellFormed(d) && Older(d, o, place) && i < |d.fields|
    ensures Find(o.fields, d.fields[i].tag, 0) < |o.fields| <==> i in place
  {
    var k := Find(o.fields, d.fields[i].tag, 0);
    if k < |o.fields| {
      assert SameField(d.fields[place[k]], o.fields[k]);
      TagNamesField(d, i, place[k]);
      assert place[k] == i;
    }
    if i in place {
      var j :| 0 <= j < |place| && place[j] == i;
      assert SameField(d.fields[place[j]], o.fields[j]);
    }
  }

  // What o knows of field i's records: those of its own field for it, or none.
  lemma {:induction false} KnownOfField(d: Descriptor, o: Descriptor, place: seq<nat>, v: Value, u: Value, i: nat,
                                        j: nat)
    requires WellFormed(d) && Older(d, o, place) && Fits(d, v, false) && Fits(o, u, false)
    requires SameValues(d, o, place, v, u) && i < |d.fields| && j <= |place|
    requires (forall k :: 0 <= k < j ==> place[k] < i) && (forall k :: j <= k < |place| ==> i <= place[k])
    ensures FitsAt(d, i, v, false)
    ensures var own := j < |place| && place[j] == i;
            && (own ==> FitsAt(o, j, u, false))
            && Known(o, FieldRecords(d.fields[i], v.slots[d.fields[i].slot])) ==
               if own then FieldRecords(o.fields[j], u.slots[o.fields[j].slot]) else []
  {
    assert FitsAt(d, i, v, false);
    var f, s := d.fields[i], v.slots[d.fields[i].slot];
    KnownField(o, f, s);
    HasField(d, o, place, i);
    if j < |place| && place[j] == i {
      assert FitsAt(o, j, u, false);
      SameRecords(f, o.fields[j], s);
    }
  }

  // From position i of d and j of o on, the records o knows are its own.
  lemma {:induction false} KnownAreOwn(d: Descriptor, o: Descriptor, place: seq<nat>, v: Value, u: Value, i: nat,
                                       j: nat)
    requires WellFormed(d) && Older(d, o, place) && Fits(d, v, false) && Fits(o, u, false)
    requires SameValues(d, o, place, v, u) && i <= |d.fields| && j <= |place|
    requires (forall k :: 0 <= k < j ==> place[k] < i) && (forall k :: j <= k < |place| ==> i <= place[k])
    ensures Known(o, RecordsFrom(d, v, i)) == RecordsFrom(o, u, j)
    decreases |d.fields| - i
  {
    if i < |d.fields| {
      KnownOfField(d, o, place, v, u, i, j);
      var records := FieldRecords(d.fields[i], v.slots[d.fields[i].slot]);
      KnownJoin(o, records, RecordsFrom(d, v, i + 1));
      if j < |place| && place[j] == i {
        KnownAreOwn(d, o, place, v, u, i + 1, j + 1);
      } else {
        KnownAreOwn(d, o, place, v, u, i + 1, j);
        assert Known(o, records) == [];
      }
    } else {
      assert j == |place|;
    }
  }

  lemma {:induction false} TypedJoin(d: Descriptor, a: seq<Rec>, b: seq<Rec>)
    requires TypedAll(d, a) && TypedAll(d, b)
    ensures TypedAll(d, a + b)
  {
  }

  // What is written for a value is of its fields' types.
  lemma {:induction false} PayloadIsTyped(d: Descriptor, i: nat, v: Value)
    requires WellFormed(d) && i < |d.fields| && FitsValue(d.fields[i], v, false)
    ensures TypedSingle(d.fields[i], PayloadOf(d.fields[i], v))
    decreases v, 3, 0
  {
    assert FieldOk(d, i);
    if d.fields[i].ltype.Submessage? {
      WrittenIsTyped(d.fields[i].sub, v, 0);
    }
  }

  lemma {:induction false} PackedIsTyped(d: Descriptor, i: nat, s: Slot, k: nat)
    requires WellFormed(d) && i < |d.fields| && s.Many? && k <= |s.items|
    requires forall j :: 0 <= j < |s.items| ==> FitsValue(d.fields[i], s.items[j], false)
    ensures forall n :: 0 <= n < |PayloadsFrom(d.fields[i], s, k)| ==>
              TypedSingle(d.fields[i], PayloadsFrom(d.fields[i], s, k)[n])
    decreases s, 1, |s.items| - k
  {
    if k < |s.items| {
      PayloadIsTyped(d, i, s.items[k]);
      PackedIsTyped(d, i, s, k + 1);
    }
  }

  lemma {:induction false} EachIsTyped(d: Descriptor, i: nat, s: Slot, k: nat)
    requires WellFormed(d) && i < |d.fields| && s.Many? && k <= |s.items|
    requires forall j :: 0 <= j < |s.items| ==> FitsValue(d.fields[i], s.items[j], false)
    ensures TypedAll(d, EachFrom(d.fields[i], s, k))
    decreases s, 1, |s.items| - k
  {
    if k < |s.items| {
      FindsItself(d, i);
      assert FieldOk(d, i);
      PayloadIsTyped(d, i, s.items[k]);
      EachIsTyped(d, i, s, k + 1);
    }
  }

  lemma {:induction false} FieldIsTyped(d: Descriptor, i: nat, s: Slot)
    requires WellFormed(d) && i < |d.fields| && FitsSlot(d.fields[i], s, false)
    ensures TypedAll(d, FieldRecords(d.fields[i], s))
    decreases s, 5, 0
  {
    FindsItself(d, i);
    assert FieldOk(d, i);
    if d.fields[i].htype.Repeated? {
      if d.fields[i].ltype.Packable() {
        PackedIsTyped(d, i, s, 0);
      } else {
        EachIsTyped(d, i, s, 0);
      }
    } else if FieldRecords(d.fields[i], s) != [] {
      PayloadIsTyped(d, i, s.value);
    }
  }

  lemma {:induction false} WrittenIsTyped(d: Descriptor, v: Value, i: nat)
    requires WellFormed(d) && i <= |d.fields| && Fits(d, v, false)
    ensures TypedAll(d, RecordsFrom(d, v, i))
    decreases v, 1, |d.fields| - i
  {
    if i < |d.fields| {
      assert FitsAt(d, i, v, false);
      FieldIsTyped(d, i, v.slots[d.fields[i].slot]);
      WrittenIsTyped(d, v, i + 1);
      TypedJoin(d, FieldRecords(d.fields[i], v.slots[d.fields[i].slot]), RecordsFrom(d, v, i + 1));
    }
  }

  // A record typed for d is typed for an older descriptor.
  lemma {:induction false} TypedForOlder(d: Descriptor, o: Descriptor, place: seq<nat>, records: seq<Rec>)
    requires WellFormed(d) && Older(d, o, place) && TypedAll(d, records)
    ensures TypedAll(o, records)
  {
    forall k | 0 <= k < |records|
      ensures TypedRec(o, records[k])
    {
      assert TypedRec(d, records[k]);
      var j := Find(o.fields, records[k].number, 0);
      if j < |o.fields| {
        assert SameField(d.fields[place[j]], o.fields[j]);
        FindsItself(d, place[j]);
        TypedForSame(d.fields[place[j]], o.fields[j], records[k].payload);
      }
    }
  }

  lemma {:induction false} TypedForSame(f: Field, g: Field, p: Payload)
    requires SameField(f, g) && Typed(f, p)
    ensures Typed(g, p)
  {
  }

  // An older reader: decoding what was encoded with a descriptor that has more fields is decoding
  // what would have been encoded without them.
  lemma {:induction false} OlderReader(d: Descriptor, o: Descriptor, place: seq<nat>, v: Value, u: Value, m: Value,
                                       e: seq<Byte>, e': seq<Byte>)
    requires WellFormed(d) && WellFormed(o) && Older(d, o, place)
    requires Fits(d, v, false) && Fits(o, u, false) && SameValues(d, o, place, v, u) && m.Msg?
    requires EncodeMessage(d, v) == Some(e) && EncodeMessage(o, u) == Some(e') && |e| < TWO32 && |e'| < TWO32
    ensures DecodeNoInit(o, m, e) == DecodeNoInit(o, m, e')
  {
    var records, own := RecordsFrom(d, v, 0), RecordsFrom(o, u, 0);
    EncodingHasFormat(d, v);
    EncodingHasFormat(o, u);
    WrittenIsTyped(d, v, 0);
    TypedForOlder(d, o, place, records);
    WrittenIsTyped(o, u, 0);
    KnownAreOwn(d, o, place, v, u, 0, 0);
    OnlyKnownCounts(o, m, {}, records);
    FormatIsDecoded(o, m, records, e, true);
    FormatIsDecoded(o, m, own, e', true);
  }
}
