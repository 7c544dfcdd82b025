/** The cyclic iterator over the rows of a field table that the encoder and the decoder share. */
module FieldIter {
  import opened Bits
  import opened Schema
  import opened Decoding

  /** The terminator row. */
  const LAST_FIELD: Field := Field(0, LVarint, Required, 0, 0, 0, 0, None)

  function Row(fields: seq<Field>, i: nat): Field
    requires i <= |fields|
  {
    if i == |fields| then LAST_FIELD else fields[i]
  }

  /** Row `i` continues the union of the row before it. */
  predicate InsideUnion(fields: seq<Field>, i: nat)
    requires 0 < i < |fields|
  {
    fields[i - 1].htype.Oneof? && fields[i].htype.Oneof? && fields[i].dataOffset == SIZE_MAX
  }

  /** Bytes of storage a row takes. */
  function Extent(f: Field): nat {
    if f.htype.Repeated? then f.dataSize * f.arraySize else f.dataSize
  }

  /** Where the data of row `i` lies in the message structure. */
  function DataPos(fields: seq<Field>, i: nat): int
    requires i < |fields| || i == 0
  {
    if i == 0 then Row(fields, 0).dataOffset
    else if InsideUnion(fields, i) then DataPos(fields, i - 1)
    else DataPos(fields, i - 1) + Extent(fields[i - 1]) + fields[i].dataOffset
  }

  /** Where its presence flag, count or `which_` member lies. */
  function SizePos(fields: seq<Field>, i: nat): int
    requires i < |fields| || i == 0
  {
    if i > 0 && InsideUnion(fields, i) then SizePos(fields, i - 1)
    else DataPos(fields, i) + Row(fields, i).sizeOffset
  }

  lemma RowsTagged(fields: seq<Field>)
    requires SchemaOK(fields)
    ensures forall i :: 0 <= i < |fields| ==> fields[i].tag != 0
  {
    forall i | 0 <= i < |fields| ensures fields[i].tag != 0 {
      assert FieldOK(fields[i]);
    }
  }

  class FieldIterator {
    const fields: seq<Field>
    var pos: nat
    var requiredIndex: nat
    var pData: int
    var pSize: int

    /** Everything the iterator knows is a function of the row it stands on, however it got there. */
    ghost predicate Valid()
      reads this
    {
      && (pos < |fields| || pos == 0 == |fields|)
      && requiredIndex == RequiredIndex(fields, pos)
      && pData == DataPos(fields, pos)
      && pSize == SizePos(fields, pos)
    }

    constructor (fields: seq<Field>)
      ensures Valid() && this.fields == fields && pos == 0
    {
      this.fields := fields;
      pos := 0;
      requiredIndex := 0;
      pData := Row(fields, 0).dataOffset;
      pSize := Row(fields, 0).dataOffset + Row(fields, 0).sizeOffset;
    }

    method Begin() returns (more: bool)
      modifies this
      ensures Valid() && pos == 0 && (more <==> fields != [] && fields[0].tag != 0)
    {
      pos := 0;
      requiredIndex := 0;
      pData := Row(fields, 0).dataOffset;
      pSize := pData + Row(fields, 0).sizeOffset;
      more := Row(fields, 0).tag != 0;
    }

    /** Goes to the next row, or back to the first and says so. No row but the last has tag zero. */
    method Next() returns (more: bool)
      requires Valid() && forall i :: 0 <= i < |fields| ==> fields[i].tag != 0
      modifies this
      ensures Valid()
      ensures more <==> old(pos) + 1 < |fields|
      ensures pos == if more then old(pos) + 1 else 0
    {
      var prev := Row(fields, pos);
      if prev.tag == 0 {
        return false;
      }
      pos := pos + 1;
      if Row(fields, pos).tag == 0 {
        var _ := Begin();
        return false;
      }
      var row := Row(fields, pos);
      var prevSize := prev.dataSize;
      if prev.htype.Oneof? && row.htype.Oneof? && row.dataOffset == SIZE_MAX {
        return true;
      } else if prev.htype.Repeated? {
        prevSize := prevSize * prev.arraySize;
      }
      if prev.htype.Required? {
        requiredIndex := requiredIndex + 1;
      }
      pData := pData + prevSize + row.dataOffset;
      pSize := pData + row.sizeOffset;
      return true;
    }

    /** Looks for `tag` from the current row on, around the end of the table; if no row has it the iterator
        is back where it was. In an empty table the terminator itself answers to tag zero. */
    method Find(tag: nat) returns (found: bool)
      requires Valid() && forall i :: 0 <= i < |fields| ==> fields[i].tag != 0
      modifies this
      ensures Valid()
      ensures found <==> (tag == 0 && fields == []) || exists i :: 0 <= i < |fields| && fields[i].tag == tag
      ensures if found then Row(fields, pos).tag == tag else pos == old(pos)
    {
      var start := pos;
      ghost var wrapped := false;
      var first := true;
      while first || pos != start
        invariant Valid()
        invariant first ==> pos == start && !wrapped
        invariant !wrapped && !first && fields != [] ==> start < pos
        invariant wrapped ==> pos <= start
        invariant forall i | 0 <= i < |fields| && (if wrapped then i < pos || start <= i else start <= i < pos) ::
          fields[i].tag != tag
        invariant !first && fields == [] ==> tag != 0
        decreases first, !wrapped, |fields| - pos
      {
        if Row(fields, pos).tag == tag {
          return true;
        }
        var more := Next();
        wrapped := wrapped || (!more && fields != []);
        first := false;
      }
      return false;
    }
  }

  // ----- the layout macros -----

  /** `offsets[i]` is where the compiler put member `i`, and every row was written by the layout macros:
      an absolute offset first, then the gap after the previous member, or the mark of a shared union. */
  ghost predicate LaidOut(fields: seq<Field>, offsets: seq<nat>) {
    && |offsets| == |fields|
    && forall i: nat :: i < |fields| ==> RowLaidOut(fields, offsets, i)
  }

  predicate RowLaidOut(fields: seq<Field>, offsets: seq<nat>, i: nat)
    requires i < |fields| == |offsets|
  {
    if i == 0 then fields[0].dataOffset == offsets[0]
    else if InsideUnion(fields, i) then offsets[i] == offsets[i - 1]
    else fields[i].dataOffset == offsets[i] - offsets[i - 1] - Extent(fields[i - 1])
  }

  /** The running sum of the iterator gives back `offsetof` of every member. */
  lemma {:induction false} IteratorFindsMember(fields: seq<Field>, offsets: seq<nat>, i: nat)
    requires LaidOut(fields, offsets) && i < |fields|
    ensures DataPos(fields, i) == offsets[i]
  {
    hide Extent;
    assert RowLaidOut(fields, offsets, i);
    if i > 0 { IteratorFindsMember(fields, offsets, i - 1); }
  }

  /** And the presence flag or count lies `sizeOffset` from the member; the alternatives of a union share one. */
  lemma IteratorFindsSize(fields: seq<Field>, offsets: seq<nat>, i: nat)
    requires LaidOut(fields, offsets) && i < |fields|
    ensures i == 0 || !InsideUnion(fields, i) ==> SizePos(fields, i) == offsets[i] + fields[i].sizeOffset
    ensures i > 0 && InsideUnion(fields, i) ==> SizePos(fields, i) == SizePos(fields, i - 1)
  {
    hide DataPos;
    IteratorFindsMember(fields, offsets, i);
  }
}
