/** Fields that the reader's table does not have: whatever a writer with another table puts there is passed over. */
module UnknownFields {
  import opened Bits
  import opened Varint
  import opened Schema
  import opened Encoding
  import opened Decoding
  import opened Pieces
  import opened WireFormat
  import opened Merging
  import opened Concat

  // ----- one field -----

  lemma ScalarSkipped(f: Field, n: int, t: seq<Byte>)
    requires Packable(f.ltype) && ValueTyped(f, Num(n)) && EncScalar(f, n).Some?
    ensures SkipField(EncScalar(f, n).value + t, WireType(f.ltype)) == Parsed((), t)
  {
    hide EncVarint, Spelled, SkipField, EncFixed, DecVarint32;
    var s := EncScalar(f, n).value + t;
    SkipFieldIs(s, WireType(f.ltype));
    match f.ltype
    case LVarint => VarintSpells(Unsigned64(n), t);
    case LUvarint => VarintSpells(n, t);
    case LSvarint => VarintSpells(Zigzag(n), t);
    case LFixed32 => assert s[4..] == t;
    case LFixed64 => assert s[8..] == t;
  }

  lemma StringSkipped(b: seq<Byte>, t: seq<Byte>)
    requires |b| < TWO_32
    ensures SkipField(EncString(b) + t, WT_STRING) == Parsed((), t)
  {
    hide EncString, DecDelimited, SkipField;
    SkipFieldIs(EncString(b) + t, WT_STRING);
    DelimitedRoundTrip(b, t);
  }

  /** What an encoder writes for a value, a decoder that does not know it skips, exactly. */
  lemma ValueSkipped(f: Field, v: Value, t: seq<Byte>)
    requires ValueTyped(f, v) && EncValue(f, v).Some? && |EncValue(f, v).value| < TWO_32
    ensures SkipField(EncValue(f, v).value + t, WireType(f.ltype)) == Parsed((), t)
  {
    hide SkipField, EncScalar, EncMessage, EncVarint;
    if Packable(f.ltype) {
      assert v == Num(v.n);
      ScalarSkipped(f, v.n, t);
    } else if f.ltype.LSubmessage? {
      StringSkipped(EncMessage(f.ltype.fields, v.slots).value, t);
    } else {
      StringSkipped(v.bytes, t);
    }
  }

  /** A key of an unknown tag, and what a decoder skips. */
  lemma KeySkipped(fields: seq<Field>, slots: seq<Slot>, wireType: nat, tag: nat, body: seq<Byte>, t: seq<Byte>,
      seen: set<nat>)
    requires SchemaOK(fields) && Typed(fields, slots) && wireType < 8 && 1 <= tag <= MAX_TAG
    requires forall i :: 0 <= i < |fields| ==> fields[i].tag != tag
    requires SkipField(body + t, wireType) == Parsed((), t)
    ensures DecFields(fields, EncTag(wireType, tag) + body + t, slots, seen) == DecFields(fields, t, slots, seen)
  {
    assert |EncTag(wireType, tag)| >= 1;
    hide SkipField, EncTag, DecKey;
    var s := EncTag(wireType, tag) + body + t;
    assert s == EncTag(wireType, tag) + (body + t);
    KeyRoundTrip(wireType, tag, body + t);
    assert FindTag(fields, tag) == None;
  }

  ghost predicate Unknown(fields: seq<Field>, tag: nat) {
    forall i :: 0 <= i < |fields| ==> fields[i].tag != tag
  }

  /** A field of another table, in front of anything. */
  lemma FieldSkipped(fields: seq<Field>, slots: seq<Slot>, f: Field, v: Value, t: seq<Byte>, seen: set<nat>)
    requires SchemaOK(fields) && Typed(fields, slots) && 1 <= f.tag <= MAX_TAG && Unknown(fields, f.tag)
    requires ValueTyped(f, v) && EncValue(f, v).Some? && |EncValue(f, v).value| < TWO_32
    ensures EncTagged(f, v).Some?
    ensures DecFields(fields, EncTagged(f, v).value + t, slots, seen) == DecFields(fields, t, slots, seen)
  {
    hide EncValue, SkipField, DecFields;
    ValueSkipped(f, v, t);
    KeySkipped(fields, slots, WireType(f.ltype), f.tag, EncValue(f, v).value, t, seen);
  }

  /** Such a field may stand between fields anywhere: the result is what it is without it. */
  lemma UnknownBetween(fields: seq<Field>, slots: seq<Slot>, s: seq<Byte>, f: Field, v: Value, t: seq<Byte>)
    requires SchemaOK(fields) && Typed(fields, slots) && 1 <= f.tag <= MAX_TAG && Unknown(fields, f.tag)
    requires ValueTyped(f, v) && EncValue(f, v).Some? && |EncValue(f, v).value| < TWO_32
    requires var r := DecFields(fields, s, slots, {}); r.Finished? && !r.zeroKey
    ensures EncTagged(f, v).Some?
    ensures DecodeNoinit(fields, s + EncTagged(f, v).value + t, slots) == DecodeNoinit(fields, s + t, slots)
  {
    hide EncValue, DecFields, RequiredSeen;
    var r := DecFields(fields, s, slots, {});
    FieldSkipped(fields, r.slots, f, v, t, r.seen);
    var e := EncTagged(f, v).value;
    RunExtends(fields, s, slots, {}, e + t);
    RunExtends(fields, s, slots, {}, t);
    assert s + e + t == s + (e + t);
  }

  // ----- rows and messages -----

  /** No length right behind a key of the row needs more than 32 bits. */
  ghost predicate OuterLengthsFit(f: Field, s: Slot)
    requires SlotTyped(f, s)
  {
    match s
    case Single(v) => EncValue(f, v).Some? ==> |EncValue(f, v).value| < TWO_32
    case Maybe(o) => o.Some? && EncValue(f, o.value).Some? ==> |EncValue(f, o.value).value| < TWO_32
    case Many(vs) =>
      if Packable(f.ltype) then EncPacked(f, vs).Some? ==> |EncPacked(f, vs).value| < TWO_32
      else forall v | v in vs :: ValueTyped(f, v) && (EncValue(f, v).Some? ==> |EncValue(f, v).value| < TWO_32)
  }

  lemma {:induction false} ItemsSkipped(fields: seq<Field>, slots: seq<Slot>, f: Field, vs: seq<Value>, t: seq<Byte>,
      seen: set<nat>)
    requires SchemaOK(fields) && Typed(fields, slots) && 1 <= f.tag <= MAX_TAG && Unknown(fields, f.tag)
    requires forall k :: 0 <= k < |vs| ==> ValueTyped(f, vs[k])
    requires forall v | v in vs :: EncValue(f, v).Some? ==> |EncValue(f, v).value| < TWO_32
    requires EncItems(f, vs).Some?
    ensures DecFields(fields, EncItems(f, vs).value + t, slots, seen) == DecFields(fields, t, slots, seen)
    decreases vs
  {
    hide EncValue, DecFields, Typed, SchemaOK;
    var e := EncItems(f, vs).value;
    if vs == [] {
      assert e + t == t;
    } else {
      var more := EncItems(f, vs[1..]).value;
      assert e + t == EncTagged(f, vs[0]).value + (more + t);
      FieldSkipped(fields, slots, f, vs[0], more + t, seen);
      ItemsSkipped(fields, slots, f, vs[1..], t, seen);
    }
  }

  lemma PackedSkipped(fields: seq<Field>, slots: seq<Slot>, f: Field, payload: seq<Byte>, t: seq<Byte>, seen: set<nat>)
    requires SchemaOK(fields) && Typed(fields, slots) && 1 <= f.tag <= MAX_TAG && Unknown(fields, f.tag)
    requires |payload| < TWO_32
    ensures DecFields(fields, EncTag(WT_STRING, f.tag) + EncString(payload) + t, slots, seen)
         == DecFields(fields, t, slots, seen)
  {
    hide DecFields, SkipField, EncString, EncTag;
    StringSkipped(payload, t);
    KeySkipped(fields, slots, WT_STRING, f.tag, EncString(payload), t, seen);
  }

  /** Whatever a row of another table writes. */
  lemma RowSkipped(fields: seq<Field>, slots: seq<Slot>, f: Field, s: Slot, t: seq<Byte>, seen: set<nat>)
    requires SchemaOK(fields) && Typed(fields, slots) && 1 <= f.tag <= MAX_TAG && Unknown(fields, f.tag)
    requires SlotTyped(f, s) && EncSlot(f, s).Some? && OuterLengthsFit(f, s)
    ensures DecFields(fields, EncSlot(f, s).value + t, slots, seen) == DecFields(fields, t, slots, seen)
  {
    hide DecFields, EncValue, EncTagged, EncString, EncTag, Typed, SchemaOK;
    var e := EncSlot(f, s).value;
    if e == [] {
      assert e + t == t;
    } else {
      match s
      case Single(v) =>
        WrittenValue(f, v);
        FieldSkipped(fields, slots, f, v, t, seen);
      case Maybe(o) =>
        WrittenValue(f, o.value);
        FieldSkipped(fields, slots, f, o.value, t, seen);
      case Many(vs) =>
        if Packable(f.ltype) {
          PackedSkipped(fields, slots, f, EncPacked(f, vs).value, t, seen);
        } else {
          ItemsSkipped(fields, slots, f, vs, t, seen);
        }
    }
  }

  lemma WrittenValue(f: Field, v: Value)
    requires ValueTyped(f, v)
    ensures EncTagged(f, v).Some? <==> EncValue(f, v).Some?
  {
    hide EncValue;
  }

  ghost predicate AllOuterLengthsFit(fields: seq<Field>, m: seq<Slot>)
    requires Typed(fields, m)
  {
    forall i :: 0 <= i < |fields| ==> SlotTyped(fields[i], m[i]) && OuterLengthsFit(fields[i], m[i])
  }

  ghost predicate AllUnknown(fields: seq<Field>, other: seq<Field>) {
    forall i :: 0 <= i < |other| ==> 1 <= other[i].tag <= MAX_TAG && Unknown(fields, other[i].tag)
  }

  /** The rows from `i` on of a message of another table, with no tag in common. */
  lemma {:induction false} MessageSkipped(fields: seq<Field>, slots: seq<Slot>, other: seq<Field>, m: seq<Slot>, i: nat,
      t: seq<Byte>, seen: set<nat>)
    requires SchemaOK(fields) && Typed(fields, slots) && AllUnknown(fields, other)
    requires Typed(other, m) && AllOuterLengthsFit(other, m) && i <= |other| && EncFrom(other, m, i).Some?
    ensures DecFields(fields, EncFrom(other, m, i).value + t, slots, seen) == DecFields(fields, t, slots, seen)
    decreases |other| - i
  {
    hide DecFields, EncSlot, OuterLengthsFit, Unknown;
    var e := EncFrom(other, m, i).value;
    if i == |other| {
      assert e + t == t;
    } else {
      assert SlotTyped(other[i], m[i]);
      var more := EncFrom(other, m, i + 1).value;
      assert e + t == EncSlot(other[i], m[i]).value + (more + t);
      RowSkipped(fields, slots, other[i], m[i], more + t, seen);
      MessageSkipped(fields, slots, other, m, i + 1, t, seen);
    }
  }

  // ----- an older reader -----

  lemma {:induction false} EncodesInTurn(fields: seq<Field>, extra: seq<Field>, a: seq<Slot>, b: seq<Slot>, i: nat)
    requires Typed(fields, a) && Typed(extra, b) && Typed(fields + extra, a + b) && i <= |fields + extra|
    ensures EncFrom(fields + extra, a + b, i)
         == if i <= |fields| then Append(EncFrom(fields, a, i), EncFrom(extra, b, 0)) else EncFrom(extra, b, i - |fields|)
    decreases |fields + extra| - i
  {
    hide EncSlot, Typed;
    assert |a| == |fields| && |b| == |extra| by { Lengths(fields, a); Lengths(extra, b); }
    if i == |fields + extra| {
      if extra == [] { AppendNothing(EncFrom(fields, a, i)); }
    } else {
      EncodesInTurn(fields, extra, a, b, i + 1);
      NextRow(fields + extra, a + b, i);
      if i < |fields| {
        NextRow(fields, a, i);
        AppendAppend(EncSlot(fields[i], a[i]), EncFrom(fields, a, i + 1), EncFrom(extra, b, 0));
      } else {
        NextRow(extra, b, i - |fields|);
        if i == |fields| { AppendNothing(EncFrom(extra, b, 0)); }
      }
    }
  }

  lemma Lengths(fields: seq<Field>, m: seq<Slot>)
    requires Typed(fields, m)
    ensures |fields| == |m|
  {
  }

  lemma NextRow(fields: seq<Field>, m: seq<Slot>, i: nat)
    requires Typed(fields, m) && i < |fields|
    ensures SlotTyped(fields[i], m[i]) && EncFrom(fields, m, |fields|) == Some([])
    ensures EncFrom(fields, m, i) == Append(EncSlot(fields[i], m[i]), EncFrom(fields, m, i + 1))
  {
    hide EncSlot;
  }

  lemma AppendNothing(e: Encoded)
    ensures Append(Some([]), e) == e && Append(e, Some([])) == e
  {
    if e.Some? { assert [] + e.value == e.value && e.value + [] == e.value; }
  }

  lemma AppendAppend(a: Encoded, b: Encoded, c: Encoded)
    ensures Append(a, Append(b, c)) == Append(Append(a, b), c)
  {
    if a.Some? && b.Some? && c.Some? { assert a.value + (b.value + c.value) == a.value + b.value + c.value; }
  }

  /** A message with fields added at the end of the table, read with the table as it was: the fields known then come out as
      if they had been written alone. */
  lemma OlderReader(fields: seq<Field>, extra: seq<Field>, a: seq<Slot>, b: seq<Slot>)
    requires SchemaOK(fields) && AllUnknown(fields, extra)
    requires Typed(fields, a) && Typed(extra, b) && Typed(fields + extra, a + b) && AllOuterLengthsFit(extra, b)
    requires EncMessage(fields + extra, a + b).Some? && |EncMessage(fields + extra, a + b).value| < LIMIT
    ensures EncMessage(fields, a).Some?
    ensures Decode(fields, EncMessage(fields + extra, a + b).value) == Decode(fields, EncMessage(fields, a).value)
  {
    hide DecFields, EncFrom, MessageMerges, Merge, SeenAfter, AllUnknown, AllOuterLengthsFit, RequiredSeen, Typed;
    EncodesInTurn(fields, extra, a, b, 0);
    DefaultTyped(fields);
    var d, ea, eb := DefaultMessage(fields), EncMessage(fields, a).value, EncMessage(extra, b).value;
    MessageRun(fields, d, a, {}, eb);
    MessageRun(fields, d, a, {}, []);
    assert ea + [] == ea && eb + [] == eb;
    if MessageMerges(fields, d, a) {
      MessageSkipped(fields, Merge(fields, d, a), extra, b, 0, [], SeenAfter(fields, a, 0, {}));
    }
  }
}
