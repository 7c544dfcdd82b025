/** Which messages can be encoded. */
module Encodable {
  import opened Bits
  import opened Varint
  import opened Schema
  import opened Encoding

  /** A value that is written: numbers of the four sizes, bytes that fit their storage, submessages likewise. */
  ghost predicate ValueWrites(f: Field, v: Value)
    requires ValueTyped(f, v)
    decreases f, 0
  {
    match f.ltype
    case LVarint => f.dataSize in {1, 2, 4, 8}
    case LUvarint => f.dataSize in {1, 2, 4, 8}
    case LSvarint => f.dataSize in {1, 2, 4, 8}
    case LBytes => |v.bytes| + 4 <= f.dataSize
    case LSubmessage(fields) => Writes(fields, v.slots)
    case _ => true
  }

  ghost predicate SlotWrites(f: Field, s: Slot)
    requires SlotTyped(f, s)
    decreases f, 1
  {
    match s
    case Single(v) => (Singular(f) && IsDefaultValue(f, v)) || ValueWrites(f, v)
    case Maybe(o) => o.Some? ==> ValueWrites(f, o.value)
    case Many(vs) => vs == [] || (|vs| <= f.arraySize && forall k :: 0 <= k < |vs| ==> ValueWrites(f, vs[k]))
  }

  ghost predicate Writes(fields: seq<Field>, slots: seq<Slot>)
    requires Typed(fields, slots)
    decreases fields, 2
  {
    forall i :: 0 <= i < |fields| ==> SlotTyped(fields[i], slots[i]) && SlotWrites(fields[i], slots[i])
  }

  lemma {:induction false} ValueEncodes(f: Field, v: Value)
    requires ValueTyped(f, v)
    ensures EncValue(f, v).Some? <==> ValueWrites(f, v)
    ensures EncTagged(f, v).Some? <==> ValueWrites(f, v)
    decreases f, 0
  {
    hide EncVarint, EncFixed;
    if f.ltype.LSubmessage? { MessageEncodes(f.ltype.fields, v.slots, 0); }
  }

  lemma {:induction false} PackedEncodes(f: Field, vs: seq<Value>)
    requires Packable(f.ltype) && forall k :: 0 <= k < |vs| ==> ValueTyped(f, vs[k])
    ensures EncPacked(f, vs).Some? <==> forall k :: 0 <= k < |vs| ==> ValueWrites(f, vs[k])
    decreases vs
  {
    hide EncVarint, EncFixed;
    if vs != [] {
      assert ValueTyped(f, vs[0]) && vs[0] == Num(vs[0].n);
      PackedEncodes(f, vs[1..]);
      assert forall k :: 1 <= k < |vs| ==> vs[k] == vs[1..][k - 1];
      assert EncScalar(f, vs[0].n).Some? <==> ValueWrites(f, vs[0]);
    }
  }

  lemma {:induction false} ItemsEncode(f: Field, vs: seq<Value>)
    requires forall k :: 0 <= k < |vs| ==> ValueTyped(f, vs[k])
    ensures EncItems(f, vs).Some? <==> forall k :: 0 <= k < |vs| ==> ValueWrites(f, vs[k])
    decreases f, 1, |vs|
  {
    hide EncTagged, ValueWrites;
    if vs != [] {
      ValueEncodes(f, vs[0]);
      ItemsEncode(f, vs[1..]);
      assert forall k :: 1 <= k < |vs| ==> vs[k] == vs[1..][k - 1];
    }
  }

  lemma {:induction false} SlotEncodes(f: Field, s: Slot)
    requires SlotTyped(f, s)
    ensures EncSlot(f, s).Some? <==> SlotWrites(f, s)
    decreases f, 2
  {
    hide EncTagged, ValueWrites, EncVarint, EncPacked, EncItems;
    match s
    case Single(v) => ValueEncodes(f, v);
    case Maybe(o) => if o.Some? { ValueEncodes(f, o.value); }
    case Many(vs) =>
      if Packable(f.ltype) { PackedEncodes(f, vs); } else { ItemsEncode(f, vs); }
  }

  /** `pb_encode` fails exactly if some row that is to be written cannot be: a number of another size, bytes past their
      storage, or more items than there is room for, at any depth. */
  lemma {:induction false} MessageEncodes(fields: seq<Field>, slots: seq<Slot>, i: nat)
    requires Typed(fields, slots) && i <= |fields|
    ensures EncFrom(fields, slots, i).Some? <==>
      forall j :: i <= j < |fields| ==> SlotTyped(fields[j], slots[j]) && SlotWrites(fields[j], slots[j])
    ensures i == 0 ==> (EncMessage(fields, slots).Some? <==> Writes(fields, slots))
    decreases fields, 3, |fields| - i
  {
    hide EncSlot, SlotWrites;
    if i < |fields| {
      assert SlotTyped(fields[i], slots[i]);
      SlotEncodes(fields[i], slots[i]);
      MessageEncodes(fields, slots, i + 1);
    }
  }
}
