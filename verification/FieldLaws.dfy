/** The rules of the fields, one kind of row at a time: merging, two occurrences, unions, arrays. */
module FieldLaws {
  import opened Bits
  import opened Varint
  import opened Schema
  import opened Encoding
  import opened Decoding
  import opened Pieces
  import opened Merging
  import opened RoundTrip

  // ----- the merge, row by row -----

  /** A value that meets one: submessages are merged, anything else is replaced. */
  function Over(f: Field, low: Value, top: Value): Value
    requires FieldOK(f) && ValueTyped(f, low) && ValueTyped(f, top)
  {
    if f.ltype.LSubmessage? then Struct(Merge(f.ltype.fields, low.slots, top.slots)) else top
  }

  /** What a row holds after `b` has been merged over `a`. */
  ghost function Joined(fields: seq<Field>, a: seq<Slot>, b: seq<Slot>, i: nat): Slot
    requires SchemaOK(fields) && Typed(fields, a) && Typed(fields, b) && i < |fields|
  {
    var f := fields[i];
    assert FieldOK(f) && SlotTyped(f, a[i]) && SlotTyped(f, b[i]);
    match f.htype
    case Required => Single(Over(f, a[i].v, b[i].v))
    case Optional =>
      if Singular(f) then (if IsDefaultValue(f, b[i].v) then a[i] else Single(Over(f, a[i].v, b[i].v)))
      else if b[i].o == None then a[i]
      else if a[i].o == None then b[i]
      else Maybe(Some(Over(f, a[i].o.value, b[i].o.value)))
    case Repeated => Many(a[i].vs + b[i].vs)
    case Oneof(u) =>
      if exists k :: 0 <= k < |fields| && fields[k].htype == Oneof(u) && b[k] != Maybe(None) then b[i] else a[i]
  }

  /** Two submessages of an optional row are merged. */
  lemma OptionalMerges(f: Field, cur: Slot, s: Slot, a: seq<Slot>, b: seq<Slot>)
    requires FieldOK(f) && f.htype.Optional? && !Singular(f) && f.ltype.LSubmessage?
    requires ValueTyped(f, Struct(a)) && ValueTyped(f, Struct(b))
    requires SlotTyped(f, cur) && SlotTyped(f, s) && cur == Maybe(Some(Struct(a))) && s == Maybe(Some(Struct(b)))
    ensures MergeSlot(f, cur, s) == Maybe(Some(Struct(Merge(f.ltype.fields, a, b))))
  {
  }

  lemma AbsentMerges(f: Field, s: Slot)
    requires FieldOK(f) && f.htype.Optional? && !Singular(f) && SlotTyped(f, s)
    ensures MergeSlot(f, Maybe(None), s) == s
  {
    DefaultValueTyped(f);
    if s.o.Some? { MergeValueDefault(f, DefaultValue(f), s.o.value); }
  }

  /** The merge is that, in every row. */
  lemma MergeIsJoined(fields: seq<Field>, a: seq<Slot>, b: seq<Slot>, i: nat)
    requires SchemaOK(fields) && Typed(fields, a) && Typed(fields, b) && i < |fields|
    ensures Merge(fields, a, b)[i] == Joined(fields, a, b, i)
  {
    var f := fields[i];
    assert FieldOK(f) && SlotTyped(f, a[i]) && SlotTyped(f, b[i]);
    assert Merge(fields, a, b)[i] == MergeRow(fields, a, b, |fields|, i);
    if f.htype.Oneof? {
      UnionIsHeld(fields, b, i);
    } else {
      SlotIsJoined(f, a[i], b[i]);
    }
  }

  lemma SlotIsJoined(f: Field, a: Slot, b: Slot)
    requires FieldOK(f) && !f.htype.Oneof? && SlotTyped(f, a) && SlotTyped(f, b)
    ensures f.htype.Required? ==> MergeSlot(f, a, b) == Single(Over(f, a.v, b.v))
    ensures Singular(f) ==> MergeSlot(f, a, b) == if IsDefaultValue(f, b.v) then a else Single(Over(f, a.v, b.v))
    ensures f.htype.Repeated? ==> MergeSlot(f, a, b) == Many(a.vs + b.vs)
    ensures f.htype.Optional? && !Singular(f) ==>
      MergeSlot(f, a, b) == if b.o == None then a else if a.o == None then b else Maybe(Some(Over(f, a.o.value, b.o.value)))
  {
    hide MergeValue;
    match f.htype
    case Required => ValueIsOver(f, a.v, b.v);
    case Repeated =>
    case Optional =>
      if Singular(f) {
        ValueIsOver(f, a.v, b.v);
      } else if a.o == None {
        AbsentMerges(f, b);
      } else if b.o.Some? {
        ValueIsOver(f, a.o.value, b.o.value);
      }
  }

  lemma ValueIsOver(f: Field, low: Value, top: Value)
    requires FieldOK(f) && ValueTyped(f, low) && ValueTyped(f, top) && !f.htype.Repeated? && !f.htype.Oneof?
    ensures MergeValue(f, low, top) == Over(f, low, top)
  {
    hide MergeRows;
  }

  lemma UnionIsHeld(fields: seq<Field>, b: seq<Slot>, i: nat)
    requires |b| == |fields| && i < |fields| && fields[i].htype.Oneof? && Typed(fields, b)
    ensures UnionSet(fields, b, |fields|, fields[i])
      <==> exists k :: 0 <= k < |fields| && fields[k].htype == fields[i].htype && b[k] != Maybe(None)
  {
    if k :| 0 <= k < |fields| && fields[k].htype == fields[i].htype && b[k] != Maybe(None) {
      assert SlotTyped(fields[k], b[k]) && SameUnion(fields[k], fields[i]) && Present(b[k]);
    }
    if UnionSet(fields, b, |fields|, fields[i]) {
      var k :| 0 <= k < |fields| && SameUnion(fields[k], fields[i]) && Present(b[k]);
      assert fields[k].htype == fields[i].htype && b[k] != Maybe(None);
    }
  }

  // ----- one occurrence of a field -----

  /** One field read over what its row holds, in front of anything. */
  lemma OneOccurrence(fields: seq<Field>, slots: seq<Slot>, i: nat, v: Value, t: seq<Byte>, seen: set<nat>)
    requires SchemaOK(fields) && Typed(fields, slots) && i < |fields|
    requires FieldOK(fields[i]) && SlotTyped(fields[i], slots[i]) && ValueTyped(fields[i], v)
    requires fields[i].htype.Repeated? ==> |slots[i].vs| < fields[i].arraySize
    requires EncTagged(fields[i], v).Some? && |EncTagged(fields[i], v).value| < LIMIT
    ensures var f, c := fields[i], Current(fields[i], slots[i]);
      DecFields(fields, EncTagged(f, v).value + t, slots, seen)
      == if ValueMerges(f, c, v) then DecFields(fields, t, Store(fields, slots, i, MergeValue(f, c, v)), seen + {f.tag})
         else Failed
  {
    assert |slots| == |fields|;
    hide DecFields, DecValue, MergeValue, ValueMerges, EncValue, Store, Typed;
    var f, c := fields[i], Current(fields[i], slots[i]);
    var body := EncValue(f, v).value;
    assert f.htype.Oneof? ==> c == DefaultValue(f);
    ValueStep(f, c, v, t);
    FieldStep(fields, i, WireType(f.ltype), body, t, slots, seen);
    PackedKey(f);
    assert EncTagged(f, v).value == EncTag(WireType(f.ltype), f.tag) + body;
  }

  /** A number has a wire type of its own, so its field is not taken for a packed array. */
  lemma PackedKey(f: Field)
    ensures WireType(f.ltype) == WT_STRING <==> !Packable(f.ltype)
  {
  }

  /** Where a value has been stored. */
  lemma Stored(fields: seq<Field>, slots: seq<Slot>, i: nat, v: Value)
    requires Typed(fields, slots) && i < |fields| && SlotTyped(fields[i], slots[i]) && ValueTyped(fields[i], v)
    ensures var r := Store(fields, slots, i, v);
      && |r| == |slots| == |fields| && SlotTyped(fields[i], r[i])
      && (fields[i].htype.Required? || Singular(fields[i]) ==> r == slots[i := Single(v)])
      && (fields[i].htype.Optional? && !Singular(fields[i]) ==> r == slots[i := Maybe(Some(v))])
      && (fields[i].htype.Repeated? ==> r == slots[i := Many(slots[i].vs + [v])])
      && (fields[i].htype.Oneof? ==> r[i] == Maybe(Some(v)) && forall j :: 0 <= j < |fields| && j != i ==>
            r[j] == if fields[j].htype == fields[i].htype then Maybe(None) else slots[j])
  {
  }

  // ----- two occurrences of a submessage -----

  /** Lengths that the reader can take. */
  ghost predicate Readable(f: Field, v: Value)
    requires FieldOK(f) && ValueTyped(f, v)
  {
    EncTagged(f, v).Some? && |EncTagged(f, v).value| < LIMIT && ValueLengthsBelow(f, v, TWO_32)
  }

  /** The second of two occurrences of an optional submessage is merged over the first, if they can be merged. */
  lemma TwoOccurrences(fields: seq<Field>, slots: seq<Slot>, i: nat, a: seq<Slot>, b: seq<Slot>, t: seq<Byte>,
      seen: set<nat>)
    requires SchemaOK(fields) && Typed(fields, slots) && i < |fields| && FieldOK(fields[i])
    requires fields[i].htype.Optional? && !Singular(fields[i]) && fields[i].ltype.LSubmessage?
    requires slots[i] == Maybe(None) && ValueTyped(fields[i], Struct(a)) && ValueTyped(fields[i], Struct(b))
    requires Readable(fields[i], Struct(a)) && Readable(fields[i], Struct(b))
    ensures var f, merged := fields[i], Merge(fields[i].ltype.fields, a, b);
      && Typed(fields, slots[i := Maybe(Some(Struct(merged)))])
      && DecFields(fields, EncTagged(f, Struct(a)).value + (EncTagged(f, Struct(b)).value + t), slots, seen)
         == if MessageMerges(f.ltype.fields, a, b)
            then DecFields(fields, t, slots[i := Maybe(Some(Struct(merged)))], seen + {f.tag}) else Failed
  {
    assert |slots| == |fields|;
    hide DecFields, Merge, EncTagged, Store, MessageMerges, LengthsBelow, Typed;
    var f, eb := fields[i], EncTagged(fields[i], Struct(b)).value;
    DefaultValueTyped(f);
    OneOccurrence(fields, slots, i, Struct(a), eb + t, seen);
    FirstMerges(f, Struct(a));
    MergeValueDefault(f, DefaultValue(f), Struct(a));
    Stored(fields, slots, i, Struct(a));
    var one := Store(fields, slots, i, Struct(a));
    OneOccurrence(fields, one, i, Struct(b), t, seen + {f.tag});
    LaterMerges(f, a, b);
    Stored(fields, one, i, MergeValue(f, Struct(a), Struct(b)));
    assert seen + {f.tag} + {f.tag} == seen + {f.tag};
    assert slots[i := Maybe(Some(Struct(a)))][i := Maybe(Some(Struct(Merge(f.ltype.fields, a, b))))]
        == slots[i := Maybe(Some(Struct(Merge(f.ltype.fields, a, b))))];
  }

  lemma FirstMerges(f: Field, v: Value)
    requires FieldOK(f) && ValueTyped(f, v) && Readable(f, v)
    ensures ValueTyped(f, DefaultValue(f)) && ValueMerges(f, DefaultValue(f), v)
  {
    hide EncValue, ValueMerges, ValueLengthsBelow;
    DefaultValueTyped(f);
    ValueFitsMerges(f, DefaultValue(f), v);
  }

  lemma LaterMerges(f: Field, a: seq<Slot>, b: seq<Slot>)
    requires FieldOK(f) && f.htype.Optional? && f.ltype.LSubmessage?
    requires ValueTyped(f, Struct(a)) && ValueTyped(f, Struct(b)) && Readable(f, Struct(b))
    ensures ValueMerges(f, Struct(a), Struct(b)) <==> MessageMerges(f.ltype.fields, a, b)
    ensures MergeValue(f, Struct(a), Struct(b)) == Struct(Merge(f.ltype.fields, a, b))
  {
    hide MessageMerges, EncMessage, LengthsBelow;
  }

  // ----- unions -----

  /** Row `i` holds `v`, and the other alternatives of its union are out. */
  function Alternative(fields: seq<Field>, slots: seq<Slot>, i: nat, v: Value): seq<Slot>
    requires |slots| == |fields| && i < |fields|
  {
    seq(|slots|, j requires 0 <= j < |slots| =>
      if j == i then Maybe(Some(v)) else if fields[j].htype == fields[i].htype then Maybe(None) else slots[j])
  }

  /** An alternative takes the place of whatever its union held, a submessage of its own row included. */
  lemma AlternativeReplaces(fields: seq<Field>, slots: seq<Slot>, i: nat, v: Value, t: seq<Byte>, seen: set<nat>)
    requires SchemaOK(fields) && Typed(fields, slots) && i < |fields| && FieldOK(fields[i]) && fields[i].htype.Oneof?
    requires ValueTyped(fields[i], v) && Readable(fields[i], v)
    ensures Typed(fields, Alternative(fields, slots, i, v))
    ensures DecFields(fields, EncTagged(fields[i], v).value + t, slots, seen)
         == DecFields(fields, t, Alternative(fields, slots, i, v), seen + {fields[i].tag})
  {
    assert |slots| == |fields| && SlotTyped(fields[i], slots[i]);
    hide DecFields, EncTagged, Store, Typed, ValueMerges, MergeValue;
    var f := fields[i];
    OneOccurrence(fields, slots, i, v, t, seen);
    FirstMerges(f, v);
    DefaultValueTyped(f);
    assert Current(f, slots[i]) == DefaultValue(f);
    MergeValueDefault(f, DefaultValue(f), v);
    Stored(fields, slots, i, v);
    assert Store(fields, slots, i, v) == Alternative(fields, slots, i, v);
  }

  // ----- arrays that are not packed -----

  /** Reading `e` adds `vs` to array `i`, or fails without room for them. */
  ghost predicate Appends(fields: seq<Field>, slots: seq<Slot>, i: nat, e: seq<Byte>, vs: seq<Value>, t: seq<Byte>,
      seen: set<nat>)
    requires SchemaOK(fields) && Typed(fields, slots) && i < |fields| == |slots| && slots[i].Many?
    requires Typed(fields, slots[i := Many(slots[i].vs + vs)])
  {
    DecFields(fields, e + t, slots, seen)
    == if vs == [] || |slots[i].vs| + |vs| <= fields[i].arraySize
       then DecFields(fields, t, slots[i := Many(slots[i].vs + vs)], if vs == [] then seen else seen + {fields[i].tag})
       else Failed
  }

  lemma AppendsThen(fields: seq<Field>, slots: seq<Slot>, i: nat, head: seq<Byte>, tail: seq<Byte>, vs: seq<Value>,
      t: seq<Byte>, seen: set<nat>)
    requires SchemaOK(fields) && Typed(fields, slots) && i < |fields| == |slots| && slots[i].Many? && vs != []
    requires Typed(fields, slots[i := Many(slots[i].vs + vs)])
    requires var one := slots[i := Many(slots[i].vs + [vs[0]])];
      && Typed(fields, one) && Typed(fields, one[i := Many(one[i].vs + vs[1..])])
      && Appends(fields, slots, i, head, [vs[0]], tail + t, seen)
      && Appends(fields, one, i, tail, vs[1..], t, seen + {fields[i].tag})
    ensures Appends(fields, slots, i, head + tail, vs, t, seen)
  {
    hide DecFields, Typed, SchemaOK;
    ItemsJoin(slots, i, vs);
    assert head + tail + t == head + (tail + t);
    assert seen + {fields[i].tag} + {fields[i].tag} == seen + {fields[i].tag};
  }

  /** Items that come one by one, each behind its key, are added to the array in their order, numbers too, as long as there
      is room. */
  lemma {:induction false} UnpackedItems(fields: seq<Field>, slots: seq<Slot>, i: nat, vs: seq<Value>, t: seq<Byte>,
      seen: set<nat>)
    requires SchemaOK(fields) && Typed(fields, slots) && i < |fields| && FieldOK(fields[i]) && fields[i].htype.Repeated?
    requires SlotTyped(fields[i], slots[i])
    requires forall v | v in vs :: ValueTyped(fields[i], v) && Readable(fields[i], v)
    ensures EncItems(fields[i], vs).Some? && Typed(fields, slots[i := Many(slots[i].vs + vs)])
    ensures Appends(fields, slots, i, EncItems(fields[i], vs).value, vs, t, seen)
    decreases vs
  {
    assert |slots| == |fields| && slots[i].Many?;
    var f := fields[i];
    ArrayTyped(fields, slots, i, vs);
    ItemsSplit(f, vs);
    if vs == [] {
      hide DecFields, Typed, EncItems;
      assert [] + t == t;
      NoItems(slots, i);
    } else {
      assert EncTagged(f, vs[0]).Some?;
      hide DecFields, EncTagged, Typed, Readable, EncItems, ValueTyped, SlotTyped, FieldOK, SchemaOK, Appends;
      var rest, one := vs[1..], slots[i := Many(slots[i].vs + [vs[0]])];
      ArrayTyped(fields, slots, i, [vs[0]]);
      UnpackedItems(fields, one, i, rest, t, seen + {f.tag});
      var e, more := EncTagged(f, vs[0]).value, EncItems(f, rest).value;
      ItemTaken(fields, slots, i, vs[0], more + t, seen);
      AppendsThen(fields, slots, i, e, more, vs, t, seen);
    }
  }

  lemma NoItems(slots: seq<Slot>, i: nat)
    requires i < |slots| && slots[i].Many?
    ensures slots[i := Many(slots[i].vs + [])] == slots
  {
    assert slots[i].vs + [] == slots[i].vs;
  }

  lemma ItemsJoin(slots: seq<Slot>, i: nat, vs: seq<Value>)
    requires i < |slots| && slots[i].Many? && vs != []
    ensures var one := slots[i := Many(slots[i].vs + [vs[0]])];
      one[i].Many? && one[i := Many(one[i].vs + vs[1..])] == slots[i := Many(slots[i].vs + vs)]
  {
    assert slots[i].vs + [vs[0]] + vs[1..] == slots[i].vs + vs;
  }

  lemma ItemsSplit(f: Field, vs: seq<Value>)
    requires forall v | v in vs :: ValueTyped(f, v)
    ensures EncItems(f, vs) == if vs == [] then Some([]) else Append(EncTagged(f, vs[0]), EncItems(f, vs[1..]))
  {
    hide EncTagged;
  }

  lemma ArrayTyped(fields: seq<Field>, slots: seq<Slot>, i: nat, vs: seq<Value>)
    requires Typed(fields, slots) && i < |fields| && fields[i].htype.Repeated? && SlotTyped(fields[i], slots[i])
    requires forall v | v in vs :: ValueTyped(fields[i], v)
    ensures Typed(fields, slots[i := Many(slots[i].vs + vs)]) && SlotTyped(fields[i], Many(slots[i].vs + vs))
  {
    hide ValueTyped;
    var all := slots[i].vs + vs;
    forall k | 0 <= k < |all| ensures ValueTyped(fields[i], all[k]) {
      if k >= |slots[i].vs| { assert all[k] == vs[k - |slots[i].vs|]; }
    }
    var r := slots[i := Many(all)];
    forall j | 0 <= j < |fields| ensures SlotTyped(fields[j], r[j]) {
      if j != i { assert SlotTyped(fields[j], slots[j]); }
    }
  }

  lemma ItemTaken(fields: seq<Field>, slots: seq<Slot>, i: nat, v: Value, t: seq<Byte>, seen: set<nat>)
    requires SchemaOK(fields) && Typed(fields, slots) && i < |fields| && FieldOK(fields[i]) && fields[i].htype.Repeated?
    requires SlotTyped(fields[i], slots[i]) && ValueTyped(fields[i], v) && Readable(fields[i], v)
    requires Typed(fields, slots[i := Many(slots[i].vs + [v])])
    ensures Appends(fields, slots, i, EncTagged(fields[i], v).value, [v], t, seen)
  {
    assert |slots| == |fields|;
    hide DecFields, EncValue, Store, Typed, ValueMerges, MergeValue, DecValue;
    var f := fields[i];
    if |slots[i].vs| < f.arraySize {
      OneOccurrence(fields, slots, i, v, t, seen);
      FirstMerges(f, v);
      assert Current(f, slots[i]) == DefaultValue(f);
      MergeValueDefault(f, DefaultValue(f), v);
      Stored(fields, slots, i, v);
    } else {
      PackedKey(f);
      FieldStep(fields, i, WireType(f.ltype), EncValue(f, v).value, t, slots, seen);
      assert EncTagged(f, v).value == EncTag(WireType(f.ltype), f.tag) + EncValue(f, v).value;
    }
  }
}
