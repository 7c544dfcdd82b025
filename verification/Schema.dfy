/** Field tables, and the messages they describe, as values. */
module Schema {
  import opened Bits

  /** The wire-level type of a field; a submessage carries its own field table. */
  datatype LType =
    | LVarint | LUvarint | LSvarint | LFixed32 | LFixed64
    | LBytes | LString | LSubmessage(fields: seq<Field>) | LFixedLengthBytes

  /** The repetition rule; `union` names the C union a oneof alternative lives in. */
  datatype HType = Required | Optional | Repeated | Oneof(union: nat)

  /** One row of a field table. Offsets are relative to the end of the previous field. */
  datatype Field = Field(
    tag: nat, ltype: LType, htype: HType,
    dataOffset: nat, sizeOffset: int, dataSize: nat, arraySize: nat,
    initial: Option<Value>)

  datatype Value = Num(n: int) | Blob(bytes: seq<Byte>) | Struct(slots: seq<Slot>)

  /** The storage of one row: a bare value, a value with a presence mark (`has_` flag, or the
      union's `which_` naming this row), or an array with its count. */
  datatype Slot = Single(v: Value) | Maybe(o: Option<Value>) | Many(vs: seq<Value>)

  const MAX_TAG: nat := 0x1FFF_FFFF
  const BYTES_HEADER: nat := 4
  const MAX_REQUIRED_FIELDS: nat := 64
  const SIZE_MAX: nat := 0xFFFF_FFFF

  predicate Packable(t: LType) {
    t.LVarint? || t.LUvarint? || t.LSvarint? || t.LFixed32? || t.LFixed64?
  }

  /** An optional row without a `has_` flag: a proto3 singular field. */
  predicate Singular(f: Field) {
    f.htype.Optional? && f.sizeOffset == 0
  }

  // ----- well-formed tables -----

  predicate DistinctTags(fields: seq<Field>) {
    forall i, j :: 0 <= i < j < |fields| ==> fields[i].tag != fields[j].tag
  }

  ghost predicate FieldOK(f: Field)
    decreases f, 0
  {
    && 1 <= f.tag <= MAX_TAG
    && f.dataSize <= SIZE_MAX
    && (f.ltype.LString? ==> f.dataSize >= 1)
    && (f.htype.Repeated? ==> f.sizeOffset != 0)
    && (f.initial.Some? ==> !f.ltype.LSubmessage? && !Singular(f) && ValueTyped(f, f.initial.value))
    && (f.ltype.LSubmessage? ==> SchemaOK(f.ltype.fields))
  }

  /** Distinct tags that fit a key, storage sizes in range, defaults of the right type, at every depth. */
  ghost predicate SchemaOK(fields: seq<Field>)
    decreases fields, 1
  {
    && DistinctTags(fields)
    && forall i :: 0 <= i < |fields| ==> FieldOK(fields[i])
  }

  // ----- well-typed messages -----

  predicate SignedFits(n: int, size: nat) {
    match size
    case 1 => -0x80 <= n < 0x80
    case 2 => -0x8000 <= n < 0x8000
    case 4 => -0x8000_0000 <= n < 0x8000_0000
    case 8 => -0x8000_0000_0000_0000 <= n < 0x8000_0000_0000_0000
    case _ => true
  }

  predicate UnsignedFits(n: int, size: nat) {
    match size
    case 1 => 0 <= n < 0x100
    case 2 => 0 <= n < 0x1_0000
    case 4 => 0 <= n < TWO_32
    case 8 => 0 <= n < TWO_64
    case _ => true
  }

  /** `v` is a value the C type of `f` can hold; a string is what precedes its NUL. */
  ghost predicate ValueTyped(f: Field, v: Value)
    decreases f, v, 0
  {
    match f.ltype
    case LVarint => v.Num? && SignedFits(v.n, f.dataSize)
    case LUvarint => v.Num? && UnsignedFits(v.n, f.dataSize)
    case LSvarint => v.Num? && SignedFits(v.n, f.dataSize)
    case LFixed32 => v.Num? && 0 <= v.n < TWO_32
    case LFixed64 => v.Num? && 0 <= v.n < TWO_64
    case LBytes => v.Blob?
    case LString => v.Blob? && 0 !in v.bytes && |v.bytes| < f.dataSize
    case LSubmessage(fields) => v.Struct? && Typed(fields, v.slots)
    case LFixedLengthBytes => v.Blob? && |v.bytes| == f.dataSize
  }

  ghost predicate SlotTyped(f: Field, s: Slot)
    decreases f, s, 1
  {
    match f.htype
    case Required => s.Single? && ValueTyped(f, s.v)
    case Optional =>
      if Singular(f) then s.Single? && ValueTyped(f, s.v)
      else s.Maybe? && (s.o.Some? ==> ValueTyped(f, s.o.value))
    case Repeated => s.Many? && forall k :: 0 <= k < |s.vs| ==> ValueTyped(f, s.vs[k])
    case Oneof(_) => s.Maybe? && (s.o.Some? ==> ValueTyped(f, s.o.value))
  }

  predicate SameUnion(f: Field, g: Field) {
    f.htype.Oneof? && f.htype == g.htype
  }

  predicate Present(s: Slot) {
    s.Maybe? && s.o.Some?
  }

  /** A union holds at most one of its alternatives. */
  predicate UnionsExclusive(fields: seq<Field>, slots: seq<Slot>) {
    && |slots| == |fields|
    && forall i, j | 0 <= i < |fields| && 0 <= j < |fields| && i != j && SameUnion(fields[i], fields[j]) ::
         Present(slots[i]) ==> !Present(slots[j])
  }

  ghost predicate Typed(fields: seq<Field>, slots: seq<Slot>)
    decreases fields, slots, 2
  {
    && |slots| == |fields|
    && UnionsExclusive(fields, slots)
    && forall i :: 0 <= i < |fields| ==> SlotTyped(fields[i], slots[i])
  }

  // ----- initial contents -----

  function ZeroBytes(n: nat): seq<Byte> {
    seq(n, _ => 0)
  }

  function DefaultValue(f: Field): (v: Value)
    decreases f, 0
  {
    if f.ltype.LSubmessage? then Struct(DefaultMessage(f.ltype.fields))
    else if f.initial.Some? then f.initial.value
    else if Packable(f.ltype) then Num(0)
    else if f.ltype.LFixedLengthBytes? then Blob(ZeroBytes(f.dataSize))
    else Blob([])
  }

  function DefaultSlot(f: Field): Slot
    decreases f, 1
  {
    match f.htype
    case Required => Single(DefaultValue(f))
    case Optional => if Singular(f) then Single(DefaultValue(f)) else Maybe(None)
    case Repeated => Many([])
    case Oneof(_) => Maybe(None)
  }

  /** The message every field of which has its default. */
  function DefaultMessage(fields: seq<Field>): (slots: seq<Slot>)
    ensures |slots| == |fields|
    decreases fields, 2
  {
    seq(|fields|, i requires 0 <= i < |fields| => DefaultSlot(fields[i]))
  }

  lemma {:induction false} DefaultValueTyped(f: Field)
    requires FieldOK(f)
    ensures ValueTyped(f, DefaultValue(f))
    decreases f, 0
  {
    if f.ltype.LSubmessage? {
      DefaultTyped(f.ltype.fields);
    }
  }

  /** Defaults are well typed, at every depth. */
  lemma {:induction false} DefaultTyped(fields: seq<Field>)
    requires SchemaOK(fields)
    ensures Typed(fields, DefaultMessage(fields))
    decreases fields, 1
  {
    forall i | 0 <= i < |fields|
      ensures SlotTyped(fields[i], DefaultSlot(fields[i]))
    {
      DefaultValueTyped(fields[i]);
    }
  }
}
