/** Which proto3 fields the encoder leaves out. */
module Omission {
  import opened Bits
  import opened Varint
  import opened Schema
  import opened Encoding
  import opened Merging

  /** A field that is written takes bytes. */
  lemma TaggedTakesBytes(f: Field, v: Value)
    requires ValueTyped(f, v)
    ensures EncTagged(f, v) != Some([])
  {
    hide EncValue;
    assert |FieldKey(f)| >= 1;
  }

  /** A number is left out exactly if it is 0, bytes and strings exactly if they are empty, fixed-length bytes exactly if
      their length is 0. */
  lemma ScalarLeftOut(f: Field, v: Value)
    requires Singular(f) && ValueTyped(f, v)
    ensures Packable(f.ltype) ==> (EncSlot(f, Single(v)) == Some([]) <==> v == Num(0))
    ensures f.ltype.LBytes? || f.ltype.LString? ==> (EncSlot(f, Single(v)) == Some([]) <==> v == Blob([]))
    ensures f.ltype.LFixedLengthBytes? ==> (EncSlot(f, Single(v)) == Some([]) <==> f.dataSize == 0)
  {
    hide EncTagged;
    TaggedTakesBytes(f, v);
  }

  /** A table every field of which can be left out: none is required, and no fixed-length bytes are always there. */
  predicate AllLeftOut(fields: seq<Field>)
    decreases fields, 1
  {
    forall i :: 0 <= i < |fields| ==> CanBeLeftOut(fields[i])
  }

  predicate CanBeLeftOut(f: Field)
    decreases f, 0
  {
    && !f.htype.Required?
    && (Singular(f) ==> (f.ltype.LFixedLengthBytes? ==> f.dataSize == 0)
                        && (f.ltype.LSubmessage? ==> AllLeftOut(f.ltype.fields)))
  }

  lemma {:induction false} DefaultLeftOut(f: Field)
    requires FieldOK(f) && Singular(f) && CanBeLeftOut(f)
    ensures ValueTyped(f, DefaultValue(f)) && IsDefaultValue(f, DefaultValue(f))
    decreases f, 0
  {
    DefaultValueTyped(f);
    if f.ltype.LSubmessage? { DefaultsLeftOut(f.ltype.fields); }
  }

  lemma {:induction false} DefaultsLeftOut(fields: seq<Field>)
    requires SchemaOK(fields) && AllLeftOut(fields)
    ensures Typed(fields, DefaultMessage(fields))
    ensures forall i :: 0 <= i < |fields| ==> IsDefaultSlot(fields, DefaultMessage(fields), i)
    decreases fields, 1
  {
    hide IsDefaultValue, DefaultValue;
    DefaultTyped(fields);
    var d := DefaultMessage(fields);
    forall i | 0 <= i < |fields| ensures IsDefaultSlot(fields, d, i) {
      var f := fields[i];
      assert FieldOK(f) && CanBeLeftOut(f) && d[i] == DefaultSlot(f);
      if Singular(f) { DefaultLeftOut(f); }
      if f.htype.Oneof? {
        forall j | 0 <= j < |fields| && SameUnion(f, fields[j]) ensures !Present(d[j]) {
          assert d[j] == DefaultSlot(fields[j]);
        }
      }
    }
  }

  /** Where the check says a field may be left out, its table says so too. */
  lemma {:induction false} LeftOutByTable(f: Field, v: Value)
    requires FieldOK(f) && Singular(f) && ValueTyped(f, v) && IsDefaultValue(f, v)
    ensures CanBeLeftOut(f)
    decreases f, 0
  {
    if f.ltype.LSubmessage? {
      forall i | 0 <= i < |f.ltype.fields| ensures CanBeLeftOut(f.ltype.fields[i]) {
        var g, s := f.ltype.fields[i], v.slots[i];
        assert IsDefaultSlot(f.ltype.fields, v.slots, i) && FieldOK(g) && SlotTyped(g, s);
        if Singular(g) { LeftOutByTable(g, s.v); }
      }
    }
  }

  /** A submessage is left out exactly if it is the default message of a table all of whose fields can be left out. */
  lemma MessageLeftOut(f: Field, m: seq<Slot>)
    requires FieldOK(f) && Singular(f) && f.ltype.LSubmessage? && ValueTyped(f, Struct(m))
    ensures EncSlot(f, Single(Struct(m))) == Some([])
       <==> AllLeftOut(f.ltype.fields) && m == DefaultMessage(f.ltype.fields)
  {
    hide EncTagged, IsDefaultValue, DefaultMessage;
    var v := Struct(m);
    TaggedTakesBytes(f, v);
    if IsDefaultValue(f, v) {
      LeftOutByTable(f, v);
      DefaultValueSound(f, v);
    } else if AllLeftOut(f.ltype.fields) && m == DefaultMessage(f.ltype.fields) {
      DefaultLeftOut(f);
    }
  }
}
