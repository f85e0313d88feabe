// The message round trip: what is decoded agrees with what was encoded on every set field and
// has its unset fields at their defaults.

module PbRoundTrip {
  import opened Wire
  import opened PbVarint
  import opened PbMessages
  import opened PbEncoding
  import opened PbDecoding
  import opened PbBounds
  import opened PbMerge
  import opened PbMerging

  // v and w have the same fields set, to the same values.
  predicate Agree(d: Descriptor, v: Value, w: Value)
    decreases v, 1
  {
    && v.Msg? && w.Msg? && |v.slots| == |w.slots| == d.slotCount
    && forall i :: 0 <= i < |d.fields| ==> AgreeAt(d, i, v, w)
  }

  predicate AgreeAt(d: Descriptor, i: nat, v: Value, w: Value)
    requires i < |d.fields|
    decreases v, 0
  {
    var k := d.fields[i].slot;
    v.Msg? && w.Msg? && k < |v.slots| && k < |w.slots| && AgreeSlot(d.fields[i], v.slots[k], w.slots[k])
  }

  predicate AgreeSlot(f: Field, s: Slot, t: Slot)
    decreases s, 3
  {
    match f.htype
    case Required => s.One? && t.One? && AgreeValue(f, s.value, t.value)
    case Optional => s.Opt? && t.Opt? && s.has == t.has && (s.has ==> AgreeValue(f, s.value, t.value))
    case Singular =>
      s.One? && t.One? && ((IsDefault(f, s.value) && IsDefault(f, t.value)) || AgreeValue(f, s.value, t.value))
    case Repeated =>
      && s.Many? && t.Many? && |s.items| == |t.items|
      && forall k :: 0 <= k < |s.items| ==> AgreeValue(f, s.items[k], t.items[k])
    case Oneof =>
      && s.Union? && t.Union? && (s.which == f.tag <==> t.which == f.tag)
      && (s.which == f.tag ==> AgreeValue(f, s.value, t.value))
  }

  predicate AgreeValue(f: Field, v: Value, w: Value)
    decreases v, 2
  {
    if f.ltype.Submessage? then Agree(f.sub, v, w) else v == w
  }

  // Unset fields are at their defaults, all the way down.
  predicate Canonical(d: Descriptor, v: Value)
    decreases v, 1
  {
    && v.Msg?
    && (forall i :: 0 <= i < |d.fields| ==> CanonicalAt(d, i, v))
    && (forall k :: 0 <= k < |v.slots| ==> CanonicalUnion(d, v.slots[k], k))
  }

  predicate CanonicalUnion(d: Descriptor, s: Slot, k: nat) {
    s.Union? ==>
      || s == EmptyUnion()
      || exists i :: 0 <= i < |d.fields| && d.fields[i].slot == k && d.fields[i].tag == s.which
  }

  predicate CanonicalAt(d: Descriptor, i: nat, v: Value)
    requires i < |d.fields|
    decreases v, 0
  {
    v.Msg? && d.fields[i].slot < |v.slots| && CanonicalSlot(d.fields[i], v.slots[d.fields[i].slot])
  }

  predicate CanonicalSlot(f: Field, s: Slot)
    decreases s, 3
  {
    match f.htype
    case Required => s.One? && CanonicalValue(f, s.value)
    case Optional => s.Opt? && if s.has then CanonicalValue(f, s.value) else s.value == DefaultValue(f)
    case Singular => s.One? && if IsDefault(f, s.value) then s.value == DefaultValue(f) else CanonicalValue(f, s.value)
    case Repeated => s.Many? && forall k :: 0 <= k < |s.items| ==> CanonicalValue(f, s.items[k])
    case Oneof => s.Union? && (s.which == f.tag ==> CanonicalValue(f, s.value))
  }

  predicate CanonicalValue(f: Field, v: Value)
    decreases v, 2
  {
    f.ltype.Submessage? ==> Canonical(f.sub, v)
  }

  // What the merge leaves in a field's slot.
  lemma {:induction false} SlotAfter(d: Descriptor, m: Value, v: Value, n: nat, i: nat)
    requires WellFormed(d) && Fits(d, m, false) && Fits(d, v, false) && i < n <= |d.fields|
    requires !d.fields[i].htype.Oneof?
    ensures d.fields[i].slot < d.slotCount
    ensures MergeUpTo(d, m, v, n).slots[d.fields[i].slot]
         == MergeSlot(d.fields[i], m.slots[d.fields[i].slot], v.slots[d.fields[i].slot])
  {
    assert FieldOk(d, i);
    if i == n - 1 {
      SlotBefore(d, m, v, n - 1, i);
    } else {
      SlotAfter(d, m, v, n - 1, i);
      assert Apart(d.fields[i], d.fields[n - 1]);
    }
  }

  lemma {:induction false} UnionAfter(d: Descriptor, m: Value, v: Value, n: nat, i: nat)
    requires WellFormed(d) && Fits(d, m, false) && Fits(d, v, false) && i < n <= |d.fields|
    requires d.fields[i].htype.Oneof? && FieldOk(d, i) && v.slots[d.fields[i].slot].Union?
    requires v.slots[d.fields[i].slot].which == d.fields[i].tag
    ensures MergeUpTo(d, m, v, n).slots[d.fields[i].slot]
         == Union(d.fields[i].tag, MergeValue(d.fields[i], DefaultValue(d.fields[i]), v.slots[d.fields[i].slot].value))
  {
    if i < n - 1 {
      UnionAfter(d, m, v, n - 1, i);
      assert Apart(d.fields[i], d.fields[n - 1]);
    }
  }

  lemma {:induction false} UnionUnset(d: Descriptor, m: Value, v: Value, n: nat, k: nat)
    requires WellFormed(d) && m.Msg? && v.Msg? && n <= |d.fields| && k < |m.slots| && k < |v.slots| && v.slots[k].Union?
    requires forall i :: 0 <= i < n && d.fields[i].slot == k ==>
                           d.fields[i].htype.Oneof? && d.fields[i].tag != v.slots[k].which
    ensures MergeUpTo(d, m, v, n).slots[k] == m.slots[k]
  {
    if n > 0 {
      UnionUnset(d, m, v, n - 1, k);
    }
  }

  // Merging into the defaults restores the value.
  lemma {:induction false} Restores(d: Descriptor, v: Value)
    requires WellFormed(d) && Fits(d, v, false)
    ensures Agree(d, v, MergeMessage(d, Defaults(d), v)) && Canonical(d, MergeMessage(d, Defaults(d), v))
    decreases v, 1, 0
  {
    var m, w := Defaults(d), MergeMessage(d, Defaults(d), v);
    DefaultsFit(d);
    FitsLoosely(d, m);
    forall i | 0 <= i < |d.fields|
      ensures AgreeAt(d, i, v, w) && CanonicalAt(d, i, w)
    {
      RestoresField(d, v, i);
    }
    forall k | 0 <= k < |w.slots|
      ensures CanonicalUnion(d, w.slots[k], k)
    {
      RestoresUnion(d, v, k);
    }
  }

  lemma {:induction false} RestoresUnion(d: Descriptor, v: Value, k: nat)
    requires WellFormed(d) && Fits(d, v, false) && k < d.slotCount
    ensures CanonicalUnion(d, MergeMessage(d, Defaults(d), v).slots[k], k)
  {
    var m, w := Defaults(d), MergeMessage(d, Defaults(d), v);
    DefaultsFit(d);
    FitsLoosely(d, m);
    assert Owned(d, k);
    var i :| 0 <= i < |d.fields| && d.fields[i].slot == k;
    var f := d.fields[i];
    assert FieldOk(d, i) && FitsAt(d, i, v, false) && FitsAt(d, i, m, false);
    assert FitsSlot(f, v.slots[k], false) && FitsSlot(f, m.slots[k], false);
    DefaultsAt(d, |d.fields|, i);
    if !f.htype.Oneof? {
      SlotAfter(d, m, v, |d.fields|, i);
    } else if j :| 0 <= j < |d.fields| && d.fields[j].slot == k && d.fields[j].tag == v.slots[k].which {
      assert FieldOk(d, j);
      SharesUnion(d, i, j);
      UnionAfter(d, m, v, |d.fields|, j);
    } else {
      forall j | 0 <= j < |d.fields| && d.fields[j].slot == k
        ensures d.fields[j].htype.Oneof?
      {
        SharesUnion(d, i, j);
      }
      UnionUnset(d, m, v, |d.fields|, k);
    }
  }

  lemma {:induction false} SharesUnion(d: Descriptor, i: nat, j: nat)
    requires WellFormed(d) && i < |d.fields| && j < |d.fields| && d.fields[i].slot == d.fields[j].slot
    requires d.fields[i].htype.Oneof?
    ensures d.fields[j].htype.Oneof?
  {
  }

  lemma {:induction false} RestoresField(d: Descriptor, v: Value, i: nat)
    requires WellFormed(d) && Fits(d, v, false) && i < |d.fields|
    ensures AgreeAt(d, i, v, MergeMessage(d, Defaults(d), v)) && CanonicalAt(d, i, MergeMessage(d, Defaults(d), v))
    decreases v, 0, 0
  {
    var m, w, f := Defaults(d), MergeMessage(d, Defaults(d), v), d.fields[i];
    DefaultsFit(d);
    FitsLoosely(d, m);
    assert FieldOk(d, i) && FitsAt(d, i, v, false);
    var t := v.slots[f.slot];
    DefaultsAt(d, |d.fields|, i);
    assert FitsSlot(f, t, false);
    if !f.htype.Oneof? {
      SlotAfter(d, m, v, |d.fields|, i);
      RestoresSlot(d, i, t);
    } else if t.which == f.tag {
      UnionAfter(d, m, v, |d.fields|, i);
      RestoresValue(d, i, t.value);
    } else {
      RestoresUnion(d, v, f.slot);
      OtherMember(d, v, i);
    }
  }

  // A member of a oneof that is not set in v is not set in the result.
  lemma {:induction false} OtherMember(d: Descriptor, v: Value, i: nat)
    requires WellFormed(d) && Fits(d, v, false) && i < |d.fields| && d.fields[i].htype.Oneof?
    requires d.fields[i].slot < |v.slots|
    requires v.slots[d.fields[i].slot].Union? && v.slots[d.fields[i].slot].which != d.fields[i].tag
    ensures MergeMessage(d, Defaults(d), v).slots[d.fields[i].slot].Union?
    ensures MergeMessage(d, Defaults(d), v).slots[d.fields[i].slot].which != d.fields[i].tag
  {
    var m, k := Defaults(d), d.fields[i].slot;
    DefaultsFit(d);
    FitsLoosely(d, m);
    assert FieldOk(d, i);
    DefaultsAt(d, |d.fields|, i);
    if j :| 0 <= j < |d.fields| && d.fields[j].slot == k && d.fields[j].tag == v.slots[k].which {
      assert FieldOk(d, j);
      SharesUnion(d, i, j);
      UnionAfter(d, m, v, |d.fields|, j);
    } else {
      forall j | 0 <= j < |d.fields| && d.fields[j].slot == k
        ensures d.fields[j].htype.Oneof?
      {
        SharesUnion(d, i, j);
      }
      UnionUnset(d, m, v, |d.fields|, k);
    }
  }

  lemma {:induction false} RestoresSlot(d: Descriptor, i: nat, t: Slot)
    requires WellFormed(d) && i < |d.fields| && !d.fields[i].htype.Oneof? && FitsSlot(d.fields[i], t, false)
    ensures AgreeSlot(d.fields[i], t, MergeSlot(d.fields[i], DefaultSlot(d.fields[i]), t))
    ensures CanonicalSlot(d.fields[i], MergeSlot(d.fields[i], DefaultSlot(d.fields[i]), t))
    decreases t, 1, 0
  {
    var f := d.fields[i];
    assert FieldOk(d, i);
    if f.htype.Repeated? {
      assert [] + MergeItems(f, t, |t.items|) == MergeItems(f, t, |t.items|);
      RestoresItems(d, i, t, |t.items|);
    } else if f.htype.Singular? && IsDefault(f, t.value) {
      DefaultIsUnset(f, t.value);
    } else if !f.htype.Optional? || t.has {
      RestoresValue(d, i, t.value);
    }
  }

  lemma {:induction false} RestoresItems(d: Descriptor, i: nat, t: Slot, n: nat)
    requires WellFormed(d) && i < |d.fields| && t.Many? && n <= |t.items|
    requires forall k :: 0 <= k < |t.items| ==> FitsValue(d.fields[i], t.items[k], false)
    ensures forall k :: 0 <= k < n ==> AgreeValue(d.fields[i], t.items[k], MergeItems(d.fields[i], t, n)[k])
    ensures forall k :: 0 <= k < n ==> CanonicalValue(d.fields[i], MergeItems(d.fields[i], t, n)[k])
    decreases t, 0, n
  {
    if n > 0 {
      RestoresItems(d, i, t, n - 1);
      RestoresValue(d, i, t.items[n - 1]);
    }
  }

  lemma {:induction false} RestoresValue(d: Descriptor, i: nat, v: Value)
    requires WellFormed(d) && i < |d.fields| && FitsValue(d.fields[i], v, false)
    ensures AgreeValue(d.fields[i], v, MergeValue(d.fields[i], DefaultValue(d.fields[i]), v))
    ensures CanonicalValue(d.fields[i], MergeValue(d.fields[i], DefaultValue(d.fields[i]), v))
    decreases v, 2, 0
  {
    assert FieldOk(d, i);
    if d.fields[i].ltype.Submessage? {
      Restores(d.fields[i].sub, v);
    }
  }

  // pb_decode of the bytes pb_encode wrote succeeds, consumes every byte, and restores the
  // value, with unset fields at their defaults.
  lemma {:induction false} RoundTrip(d: Descriptor, v: Value)
    requires WellFormed(d) && Fits(d, v, true)
    ensures EncodeMessage(d, v).Some?
    ensures |EncodeMessage(d, v).value| < TWO32 ==>
              && Decode(d, EncodeMessage(d, v).value) == Parsed(MergeMessage(d, Defaults(d), v), [])
              && Agree(d, v, MergeMessage(d, Defaults(d), v))
              && Canonical(d, MergeMessage(d, Defaults(d), v))
  {
    FitsLoosely(d, v);
    FittingEncodes(d, v, 0);
    DefaultsFit(d);
    FitsLoosely(d, Defaults(d));
    RoomInDefaults(d, v);
    Restores(d, v);
    if |EncodeMessage(d, v).value| < TWO32 {
      MessageMerges(d, Defaults(d), v, EncodeMessage(d, v).value);
    }
  }

  // The same through pb_encode_delimited and pb_decode_delimited, whatever follows.
  lemma {:induction false} DelimitedRoundTrip(d: Descriptor, v: Value, tail: seq<Byte>)
    requires WellFormed(d) && Fits(d, v, true)
    ensures EncodeMessage(d, v).Some?
    ensures |EncodeMessage(d, v).value| < TWO32 ==>
              DecodeDelimited(d, Prefixed(EncodeMessage(d, v).value) + tail)
              == Parsed(MergeMessage(d, Defaults(d), v), tail)
  {
    RoundTrip(d, v);
    var e := EncodeMessage(d, v).value;
    if |e| < TWO32 {
      PrefixedIsTaken(e, tail);
    }
  }

  // A value with its unset fields at their defaults is determined by its set fields.
  lemma {:induction false} CanonicalIsUnique(d: Descriptor, v: Value, w: Value)
    requires WellFormed(d) && Agree(d, v, w) && Canonical(d, v) && Canonical(d, w)
    ensures v == w
    decreases v, 1
  {
    forall k | 0 <= k < d.slotCount
      ensures v.slots[k] == w.slots[k]
    {
      assert Owned(d, k);
      var i :| 0 <= i < |d.fields| && d.fields[i].slot == k;
      UniqueSlot(d, v, w, i);
    }
  }

  lemma {:induction false} UniqueSlot(d: Descriptor, v: Value, w: Value, i: nat)
    requires WellFormed(d) && Agree(d, v, w) && Canonical(d, v) && Canonical(d, w) && i < |d.fields|
    ensures d.fields[i].slot < |v.slots| && v.slots[d.fields[i].slot] == w.slots[d.fields[i].slot]
    decreases v, 0
  {
    var f := d.fields[i];
    assert FieldOk(d, i) && AgreeAt(d, i, v, w) && CanonicalAt(d, i, v) && CanonicalAt(d, i, w);
    var s, t := v.slots[f.slot], w.slots[f.slot];
    assert AgreeSlot(f, s, t) && CanonicalSlot(f, s) && CanonicalSlot(f, t);
    if f.htype.Repeated? {
      forall k | 0 <= k < |s.items|
        ensures s.items[k] == t.items[k]
      {
        UniqueValue(d, i, s.items[k], t.items[k]);
      }
    } else if f.htype.Oneof? {
      UniqueUnion(d, v, w, i);
    } else if f.htype.Singular? && IsDefault(f, s.value) && IsDefault(f, t.value) {
      assert s == t;
    } else if !f.htype.Optional? || s.has {
      UniqueValue(d, i, s.value, t.value);
    }
  }

  lemma {:induction false} UniqueValue(d: Descriptor, i: nat, v: Value, w: Value)
    requires WellFormed(d) && i < |d.fields|
    requires AgreeValue(d.fields[i], v, w) && CanonicalValue(d.fields[i], v) && CanonicalValue(d.fields[i], w)
    ensures v == w
    decreases v, 2
  {
    assert FieldOk(d, i);
    if d.fields[i].ltype.Submessage? {
      CanonicalIsUnique(d.fields[i].sub, v, w);
    }
  }

  lemma {:induction false} UniqueUnion(d: Descriptor, v: Value, w: Value, i: nat)
    requires WellFormed(d) && Agree(d, v, w) && Canonical(d, v) && Canonical(d, w) && i < |d.fields|
    requires d.fields[i].htype.Oneof? && d.fields[i].slot < |v.slots| && v.slots[d.fields[i].slot].Union?
    requires w.slots[d.fields[i].slot].Union?
    ensures v.slots[d.fields[i].slot] == w.slots[d.fields[i].slot]
    decreases v, 0, 0
  {
    var k := d.fields[i].slot;
    var s, t := v.slots[k], w.slots[k];
    assert CanonicalUnion(d, s, k) && CanonicalUnion(d, t, k);
    if s != EmptyUnion() || t != EmptyUnion() {
      var which := if s != EmptyUnion() then s.which else t.which;
      var j :| 0 <= j < |d.fields| && d.fields[j].slot == k && d.fields[j].tag == which;
      SharesUnion(d, i, j);
      assert FieldOk(d, j) && AgreeAt(d, j, v, w) && CanonicalAt(d, j, v) && CanonicalAt(d, j, w);
      assert AgreeSlot(d.fields[j], s, t) && CanonicalSlot(d.fields[j], s) && CanonicalSlot(d.fields[j], t);
      UniqueValue(d, j, s.value, t.value);
    }
  }

  // Decoding inverts encoding on every value with its unset fields at their defaults.
  lemma {:induction false} CanonicalRoundTrip(d: Descriptor, v: Value)
    requires WellFormed(d) && Fits(d, v, true) && Canonical(d, v)
    requires EncodeMessage(d, v).Some? && |EncodeMessage(d, v).value| < TWO32
    ensures Decode(d, EncodeMessage(d, v).value) == Parsed(v, [])
  {
    RoundTrip(d, v);
    CanonicalIsUnique(d, v, MergeMessage(d, Defaults(d), v));
  }
}
