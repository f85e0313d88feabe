// pb_field_iter_t: a walk round a field list that keeps a pointer into the struct and the
// number of required fields passed. The list ends before its terminator, whose tag is 0.

module PbIterator {
  import opened PbMessages

  predicate NonzeroTags(fields: seq<Field>) {
    forall i :: 0 <= i < |fields| ==> fields[i].tag != 0
  }

  lemma {:induction false} TagsAreNonzero(d: Descriptor)
    requires WellFormed(d)
    ensures NonzeroTags(d.fields)
  {
    forall i | 0 <= i < |d.fields|
      ensures d.fields[i].tag != 0
    {
      assert FieldOk(d, i);
    }
  }

  // Members of a oneof after the first do not move the pointer.
  predicate InUnion(fields: seq<Field>, i: nat)
    requires 0 < i < |fields|
  {
    fields[i - 1].htype.Oneof? && fields[i].htype.Oneof? && fields[i].dataOffset == PB_SIZE_MAX
  }

  function FieldSize(f: Field): nat {
    if f.htype.Repeated? then f.dataSize * f.arraySize else f.dataSize
  }

  // Where field i stands in the struct.
  function DataOffset(fields: seq<Field>, i: nat): nat
    requires i < |fields|
  {
    if i == 0 then fields[0].dataOffset
    else if InUnion(fields, i) then DataOffset(fields, i - 1)
    else DataOffset(fields, i - 1) + FieldSize(fields[i - 1]) + fields[i].dataOffset
  }

  // Where its has_, count or which_ stands.
  function SizeOffset(fields: seq<Field>, i: nat): int
    requires i < |fields|
  {
    if i > 0 && InUnion(fields, i) then SizeOffset(fields, i - 1)
    else DataOffset(fields, i) + fields[i].sizeOffset
  }

  class FieldIter {
    const fields: seq<Field>
    var pos: nat
    var requiredFieldIndex: nat
    var data: int
    var size: int

    // Everything depends on the position alone.
    ghost predicate Valid()
      reads this
    {
      && NonzeroTags(fields)
      && (if fields == [] then pos == 0 && requiredFieldIndex == 0
          else
            && pos < |fields|
            && requiredFieldIndex == RequiredBefore(fields, pos)
            && data == DataOffset(fields, pos)
            && size == SizeOffset(fields, pos))
    }

    // pos->tag, which is the terminator's when the list is empty
    function Tag(): nat
      reads this
    {
      if pos < |fields| then fields[pos].tag else 0
    }

    // pb_field_iter_begin
    constructor (fields: seq<Field>)
      requires NonzeroTags(fields)
      ensures Valid() && this.fields == fields && pos == 0
    {
      this.fields := fields;
      pos, requiredFieldIndex := 0, 0;
      if fields != [] {
        data, size := fields[0].dataOffset, fields[0].dataOffset + fields[0].sizeOffset;
      } else {
        data, size := 0, 0;
      }
    }

    method Begin() returns (ok: bool)
      requires NonzeroTags(fields)
      modifies this
      ensures Valid() && pos == 0 && (ok <==> fields != [])
    {
      pos, requiredFieldIndex := 0, 0;
      if fields != [] {
        data := fields[0].dataOffset;
        size := data + fields[0].sizeOffset;
      }
      ok := Tag() != 0;
    }

    // pb_field_iter_next: false when it wraps round to the first field.
    method Next() returns (ok: bool)
      requires Valid()
      modifies this
      ensures Valid() && (ok <==> old(pos) + 1 < |fields|)
      ensures pos == if old(pos) + 1 < |fields| then old(pos) + 1 else 0
    {
      if Tag() == 0 {
        return false;
      }
      var prev := fields[pos];
      pos := pos + 1;
      if Tag() == 0 {
        var _ := Begin();
        return false;
      }
      var prevSize := prev.dataSize;
      if prev.htype.Oneof? && fields[pos].htype.Oneof? && fields[pos].dataOffset == PB_SIZE_MAX {
        return true;
      } else if prev.htype.Repeated? {
        prevSize := prevSize * prev.arraySize;
      }
      if prev.htype.Required? {
        requiredFieldIndex := requiredFieldIndex + 1;
      }
      data := data + prevSize + fields[pos].dataOffset;
      size := data + fields[pos].sizeOffset;
      return true;
    }

    // pb_field_iter_find: round the list from the current position. It succeeds exactly when
    // a field has the tag, and otherwise ends where it began.
    method Find(tag: nat) returns (ok: bool)
      requires Valid()
      modifies this
      ensures Valid() && (ok ==> Tag() == tag) && (!ok ==> pos == old(pos))
      ensures fields != [] ==> (ok <==> exists i :: 0 <= i < |fields| && fields[i].tag == tag)
      ensures fields == [] ==> (ok <==> tag == 0)
      // of several fields with the tag, the first from here on
      ensures ok && pos >= old(pos) ==> forall i :: old(pos) <= i < pos ==> fields[i].tag != tag
      ensures ok && pos < old(pos) ==> forall i :: 0 <= i < |fields| && (i < pos || old(pos) <= i) ==>
                                        fields[i].tag != tag
    {
      var start := pos;
      ghost var passed: nat := 0;
      while true
        invariant Valid() && passed <= |fields| && (fields != [] ==> passed < |fields|)
        invariant pos == if start + passed < |fields| || fields == [] then start + passed else start + passed - |fields|
        invariant forall i :: start <= i < |fields| && i < start + passed ==> fields[i].tag != tag
        invariant forall i :: 0 <= i < start + passed - |fields| ==> fields[i].tag != tag
        decreases |fields| - passed
      {
        if Tag() == tag {
          return true;
        }
        var _ := Next();
        if pos == start {
          return false;
        }
        passed := passed + 1;
      }
    }
  }
}
