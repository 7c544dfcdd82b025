/** What the encoder writes, as a function of the field table and the message. `None` is an encoding error. */
module Encoding {
  import opened Bits
  import opened Varint
  import opened Schema

  const WT_VARINT: nat := 0
  const WT_64BIT: nat := 1
  const WT_STRING: nat := 2
  const WT_32BIT: nat := 5

  type Encoded = Option<seq<Byte>>

  function WireType(t: LType): nat {
    match t
    case LVarint => WT_VARINT
    case LUvarint => WT_VARINT
    case LSvarint => WT_VARINT
    case LFixed32 => WT_32BIT
    case LFixed64 => WT_64BIT
    case _ => WT_STRING
  }

  function EncTag(wireType: nat, tag: nat): seq<Byte> {
    EncVarint(8 * tag + wireType)
  }

  function FieldKey(f: Field): seq<Byte> {
    EncTag(WireType(f.ltype), f.tag)
  }

  function EncString(b: seq<Byte>): seq<Byte> {
    EncVarint(|b|) + b
  }

  predicate ValidIntSize(size: nat) {
    size == 1 || size == 2 || size == 4 || size == 8
  }

  function Append(a: Encoded, b: Encoded): Encoded {
    if a.Some? && b.Some? then Some(a.value + b.value) else None
  }

  /** The two's-complement 64-bit pattern of a signed value. */
  function Unsigned64(n: int): nat
    requires 0 <= n + TWO_64
  {
    if n < 0 then TWO_64 + n else n
  }

  function EncScalar(f: Field, n: int): Encoded
    requires Packable(f.ltype) && ValueTyped(f, Num(n))
  {
    match f.ltype
    case LVarint => if ValidIntSize(f.dataSize) then Some(EncVarint(Unsigned64(n))) else None
    case LUvarint => if ValidIntSize(f.dataSize) then Some(EncVarint(n)) else None
    case LSvarint => if ValidIntSize(f.dataSize) then Some(EncVarint(Zigzag(n))) else None
    case LFixed32 => Some(EncFixed(n, 4))
    case LFixed64 => Some(EncFixed(n, 8))
  }

  function EncValue(f: Field, v: Value): Encoded
    requires ValueTyped(f, v)
    decreases f, 0, 0
  {
    match f.ltype
    case LBytes => if |v.bytes| + BYTES_HEADER > f.dataSize then None else Some(EncString(v.bytes))
    case LString => Some(EncString(v.bytes))
    case LFixedLengthBytes => Some(EncString(v.bytes))
    case LSubmessage(fields) => EncDelimited(fields, v.slots)
    case _ => EncScalar(f, v.n)
  }

  function EncTagged(f: Field, v: Value): Encoded
    requires ValueTyped(f, v)
    decreases f, 1, 0
  {
    Append(Some(FieldKey(f)), EncValue(f, v))
  }

  /** The items of a packed array, without the key and the length. */
  function EncPacked(f: Field, vs: seq<Value>): Encoded
    requires Packable(f.ltype) && forall k :: 0 <= k < |vs| ==> ValueTyped(f, vs[k])
  {
    if vs == [] then Some([])
    else
      assert ValueTyped(f, vs[0]);
      Append(EncScalar(f, vs[0].n), EncPacked(f, vs[1..]))
  }

  /** The items of an unpacked array, each with its key. */
  function EncItems(f: Field, vs: seq<Value>): Encoded
    requires forall k :: 0 <= k < |vs| ==> ValueTyped(f, vs[k])
    decreases f, 2, |vs|
  {
    if vs == [] then Some([]) else Append(EncTagged(f, vs[0]), EncItems(f, vs[1..]))
  }

  function EncArray(f: Field, vs: seq<Value>): Encoded
    requires forall k :: 0 <= k < |vs| ==> ValueTyped(f, vs[k])
    decreases f, 3, 0
  {
    if vs == [] then Some([])
    else if |vs| > f.arraySize then None
    else if Packable(f.ltype) then
      var payload := EncPacked(f, vs);
      if payload.None? then None else Some(EncTag(WT_STRING, f.tag) + EncString(payload.value))
    else EncItems(f, vs)
  }

  /** Whether the proto3 rules leave out a singular field holding `v`. */
  predicate IsDefaultValue(f: Field, v: Value)
    requires ValueTyped(f, v)
    decreases f, 0
  {
    match f.ltype
    case LBytes => v.bytes == []
    case LString => v.bytes == []
    case LFixedLengthBytes => f.dataSize == 0
    case LSubmessage(fields) =>
      forall i :: 0 <= i < |fields| ==> IsDefaultSlot(fields, v.slots, i)
    case _ => v.n == 0
  }

  /** The same check on one row of a submessage. */
  predicate IsDefaultSlot(fields: seq<Field>, slots: seq<Slot>, i: nat)
    requires Typed(fields, slots) && i < |fields|
    decreases fields, 1
  {
    var f, s := fields[i], slots[i];
    assert SlotTyped(f, s);
    match f.htype
    case Required => false
    case Repeated => s.vs == []
    case Oneof(_) => forall j :: 0 <= j < |fields| && SameUnion(f, fields[j]) ==> !Present(slots[j])
    case Optional => if Singular(f) then IsDefaultValue(f, s.v) else s.o.None?
  }

  function EncSlot(f: Field, s: Slot): Encoded
    requires SlotTyped(f, s)
    decreases f, 4, 0
  {
    match f.htype
    case Required => EncTagged(f, s.v)
    case Optional =>
      if Singular(f) then (if IsDefaultValue(f, s.v) then Some([]) else EncTagged(f, s.v))
      else if s.o.None? then Some([]) else EncTagged(f, s.o.value)
    case Repeated => EncArray(f, s.vs)
    case Oneof(_) => if s.o.None? then Some([]) else EncTagged(f, s.o.value)
  }

  /** Rows `i` and later. */
  function EncFrom(fields: seq<Field>, slots: seq<Slot>, i: nat): Encoded
    requires Typed(fields, slots) && i <= |fields|
    decreases fields, 5, |fields| - i
  {
    if i == |fields| then Some([])
    else Append(EncSlot(fields[i], slots[i]), EncFrom(fields, slots, i + 1))
  }

  function EncMessage(fields: seq<Field>, slots: seq<Slot>): Encoded
    requires Typed(fields, slots)
    decreases fields, 6, 0
  {
    EncFrom(fields, slots, 0)
  }

  /** A message behind its length. */
  function EncDelimited(fields: seq<Field>, slots: seq<Slot>): Encoded
    requires Typed(fields, slots)
    decreases fields, 7, 0
  {
    var e := EncMessage(fields, slots);
    if e.None? then None else Some(EncString(e.value))
  }

  // ----- lengths -----

  /** Every length written inside a value, row or message is below `limit`. */
  ghost predicate ValueLengthsBelow(f: Field, v: Value, limit: nat)
    requires ValueTyped(f, v)
    decreases f, 0
  {
    f.ltype.LSubmessage? ==>
      && LengthsBelow(f.ltype.fields, v.slots, limit)
      && (EncMessage(f.ltype.fields, v.slots).Some? ==> |EncMessage(f.ltype.fields, v.slots).value| < limit)
  }

  ghost predicate RowLengthsBelow(f: Field, s: Slot, limit: nat)
    requires SlotTyped(f, s)
    decreases f, 1
  {
    match s
    case Single(v) => (Singular(f) && IsDefaultValue(f, v)) || ValueLengthsBelow(f, v, limit)
    case Maybe(o) => o.None? || ValueLengthsBelow(f, o.value, limit)
    case Many(vs) =>
      if Packable(f.ltype) then EncPacked(f, vs).Some? ==> |EncPacked(f, vs).value| < limit
      else forall k :: 0 <= k < |vs| ==> ValueLengthsBelow(f, vs[k], limit)
  }

  ghost predicate LengthsBelow(fields: seq<Field>, slots: seq<Slot>, limit: nat)
    requires Typed(fields, slots)
    decreases fields, 2
  {
    forall i :: 0 <= i < |fields| ==> SlotTyped(fields[i], slots[i]) && RowLengthsBelow(fields[i], slots[i], limit)
  }
}
