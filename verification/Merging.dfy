/** Decoding an encoded message over an existing one merges the two, field by field. */
module Merging {
  import opened Bits
  import opened Varint
  import opened Schema
  import opened Encoding
  import opened Decoding
  import opened Pieces

  // ----- the merge -----

  /** Only required and optional submessages are merged into; other storage starts from its default. */
  function Start(f: Field, cur: Value): Value {
    if f.htype.Repeated? || f.htype.Oneof? then DefaultValue(f) else cur
  }

  function MergeValue(f: Field, cur: Value, v: Value): (r: Value)
    requires FieldOK(f) && ValueTyped(f, cur) && ValueTyped(f, v)
    ensures ValueTyped(f, r)
    decreases f, 0
  {
    DefaultValueTyped(f);
    if f.ltype.LSubmessage? then
      Struct(MergeRows(f.ltype.fields, Start(f, cur).slots, v.slots, |f.ltype.fields|))
    else v
  }

  function MergeSlot(f: Field, cur: Slot, s: Slot): (r: Slot)
    requires FieldOK(f) && SlotTyped(f, cur) && SlotTyped(f, s) && !f.htype.Oneof?
    ensures SlotTyped(f, r)
    decreases f, 1
  {
    match s
    case Single(v) => if Singular(f) && IsDefaultValue(f, v) then cur else Single(MergeValue(f, cur.v, v))
    case Maybe(o) => if o.None? then cur else Maybe(Some(MergeValue(f, Current(f, cur), o.value)))
    case Many(vs) => Many(cur.vs + vs)
  }

  /** Whether one of the first `n` rows of `b` holds an alternative of the union of `f`. */
  predicate UnionSet(fields: seq<Field>, b: seq<Slot>, n: nat, f: Field)
    requires |b| == |fields| && n <= |fields|
  {
    exists k :: 0 <= k < n && SameUnion(fields[k], f) && Present(b[k])
  }

  /** Row `j` after the first `n` rows of `b` have been merged into `cur`. */
  function MergeRow(fields: seq<Field>, cur: seq<Slot>, b: seq<Slot>, n: nat, j: nat): (r: Slot)
    requires SchemaOK(fields) && Typed(fields, cur) && Typed(fields, b) && n <= |fields| && j < |fields|
    ensures SlotTyped(fields[j], r)
    decreases fields[j], 2
  {
    var f := fields[j];
    assert FieldOK(f) && SlotTyped(f, cur[j]) && SlotTyped(f, b[j]);
    if f.htype.Oneof? then (if UnionSet(fields, b, n, f) then b[j] else cur[j])
    else if j < n then MergeSlot(f, cur[j], b[j])
    else cur[j]
  }

  /** The message `cur` with the first `n` rows of `b` merged in. */
  function MergeRows(fields: seq<Field>, cur: seq<Slot>, b: seq<Slot>, n: nat): (r: seq<Slot>)
    requires SchemaOK(fields) && Typed(fields, cur) && Typed(fields, b) && n <= |fields|
    ensures Typed(fields, r)
    ensures forall j :: 0 <= j < |fields| ==> r[j] == MergeRow(fields, cur, b, n, j)
    decreases fields, 3
  {
    var r := seq(|fields|, j requires 0 <= j < |fields| => MergeRow(fields, cur, b, n, j));
    MergeTyped(fields, cur, b, n, r);
    r
  }

  lemma MergeTyped(fields: seq<Field>, cur: seq<Slot>, b: seq<Slot>, n: nat, r: seq<Slot>)
    requires Typed(fields, cur) && Typed(fields, b) && n <= |fields| && |r| == |fields|
    requires forall j :: 0 <= j < |fields| ==> SlotTyped(fields[j], r[j])
    requires forall j :: 0 <= j < |fields| && fields[j].htype.Oneof? ==>
      r[j] == if UnionSet(fields, b, n, fields[j]) then b[j] else cur[j]
    ensures Typed(fields, r)
  {
    forall i, j | 0 <= i < |fields| && 0 <= j < |fields| && i != j && SameUnion(fields[i], fields[j])
      ensures Present(r[i]) ==> !Present(r[j])
    {
      assert UnionSet(fields, b, n, fields[i]) == UnionSet(fields, b, n, fields[j]);
    }
  }

  function Merge(fields: seq<Field>, cur: seq<Slot>, b: seq<Slot>): (r: seq<Slot>)
    requires SchemaOK(fields) && Typed(fields, cur) && Typed(fields, b)
    ensures Typed(fields, r)
  {
    MergeRows(fields, cur, b, |fields|)
  }

  // ----- when it goes through -----

  ghost predicate ValueMerges(f: Field, cur: Value, v: Value)
    requires FieldOK(f) && ValueTyped(f, cur) && ValueTyped(f, v)
    decreases f, 0
  {
    DefaultValueTyped(f);
    f.ltype.LSubmessage? ==>
      && MessageMerges(f.ltype.fields, Start(f, cur).slots, v.slots)
      && (EncMessage(f.ltype.fields, v.slots).Some? ==> |EncMessage(f.ltype.fields, v.slots).value| < TWO_32)
  }

  ghost predicate RowMerges(f: Field, cur: Slot, s: Slot)
    requires FieldOK(f) && SlotTyped(f, cur) && SlotTyped(f, s)
    decreases f, 1
  {
    DefaultValueTyped(f);
    match s
    case Single(v) => (Singular(f) && IsDefaultValue(f, v)) || ValueMerges(f, cur.v, v)
    case Maybe(o) => o.None? || ValueMerges(f, Current(f, cur), o.value)
    case Many(vs) =>
      vs == [] ||
      (&& |cur.vs| + |vs| <= f.arraySize
       && if Packable(f.ltype) then EncPacked(f, vs).Some? ==> |EncPacked(f, vs).value| < TWO_32
          else forall k :: 0 <= k < |vs| ==> ValueMerges(f, DefaultValue(f), vs[k]))
  }

  /** The joined arrays fit their storage, and every length inside fits the 32 bits the decoder reads. */
  ghost predicate MessageMerges(fields: seq<Field>, cur: seq<Slot>, b: seq<Slot>)
    requires SchemaOK(fields) && Typed(fields, cur) && Typed(fields, b)
    decreases fields, 2
  {
    forall i :: 0 <= i < |fields| ==>
      && FieldOK(fields[i]) && SlotTyped(fields[i], cur[i]) && SlotTyped(fields[i], b[i])
      && RowMerges(fields[i], cur[i], b[i])
  }
  // ----- proto3 defaults -----

  /** A singular field is only left out when it holds what the decoder starts from. */
  lemma {:induction false} DefaultValueSound(f: Field, v: Value)
    requires FieldOK(f) && Singular(f) && ValueTyped(f, v) && IsDefaultValue(f, v)
    ensures v == DefaultValue(f)
    decreases f, 0
  {
    if f.ltype.LSubmessage? {
      DefaultMessageSound(f.ltype.fields, v.slots);
    }
  }

  lemma {:induction false} DefaultMessageSound(fields: seq<Field>, slots: seq<Slot>)
    requires SchemaOK(fields) && Typed(fields, slots)
    requires forall i :: 0 <= i < |fields| ==> IsDefaultSlot(fields, slots, i)
    ensures slots == DefaultMessage(fields)
    decreases fields, 1
  {
    forall i | 0 <= i < |fields|
      ensures slots[i] == DefaultSlot(fields[i])
    {
      var f := fields[i];
      assert FieldOK(f) && SlotTyped(f, slots[i]) && IsDefaultSlot(fields, slots, i);
      if Singular(f) {
        DefaultValueSound(f, slots[i].v);
      } else if f.htype.Oneof? {
        assert SameUnion(f, fields[i]);
      }
    }
  }

  /** Merging into the defaults gives the merged message itself. */
  lemma {:induction false} MergeValueDefault(f: Field, cur: Value, v: Value)
    requires FieldOK(f) && ValueTyped(f, cur) && ValueTyped(f, v)
    requires cur == DefaultValue(f) || f.htype.Repeated? || f.htype.Oneof?
    ensures MergeValue(f, cur, v) == v
    decreases f, 0
  {
    if f.ltype.LSubmessage? {
      DefaultTyped(f.ltype.fields);
      MergeDefault(f.ltype.fields, v.slots);
    }
  }

  lemma MergeSlotDefault(f: Field, s: Slot)
    requires FieldOK(f) && !f.htype.Oneof? && SlotTyped(f, s)
    ensures SlotTyped(f, DefaultSlot(f)) && MergeSlot(f, DefaultSlot(f), s) == s
    decreases f, 1
  {
    DefaultValueTyped(f);
    var d := DefaultSlot(f);
    match s
    case Single(v) =>
      if Singular(f) && IsDefaultValue(f, v) {
        DefaultValueSound(f, v);
      } else {
        MergeValueDefault(f, d.v, v);
      }
    case Maybe(o) =>
      if o.Some? {
        MergeValueDefault(f, Current(f, d), o.value);
      }
    case Many(vs) =>
      assert [] + vs == vs;
  }

  lemma {:induction false} MergeDefault(fields: seq<Field>, b: seq<Slot>)
    requires SchemaOK(fields) && Typed(fields, b)
    ensures Typed(fields, DefaultMessage(fields)) && Merge(fields, DefaultMessage(fields), b) == b
    decreases fields, 2
  {
    DefaultTyped(fields);
    var d, n := DefaultMessage(fields), |fields|;
    forall j | 0 <= j < n
      ensures MergeRows(fields, d, b, n)[j] == b[j]
    {
      var f := fields[j];
      assert FieldOK(f) && SlotTyped(f, d[j]) && SlotTyped(f, b[j]);
      assert d[j] == DefaultSlot(f);
      assert MergeRows(fields, d, b, n)[j] == MergeRow(fields, d, b, n, j);
      if f.htype.Oneof? {
        if Present(b[j]) {
          assert SameUnion(fields[j], f);
          assert UnionSet(fields, b, n, f);
        }
      } else {
        MergeSlotDefault(f, b[j]);
      }
    }
  }

  // ----- decoding merges -----

  /** A value read over `cur`. */
  lemma {:induction false} ValueStep(f: Field, cur: Value, v: Value, t: seq<Byte>)
    requires FieldOK(f) && ValueTyped(f, cur) && ValueTyped(f, v)
    requires f.htype.Oneof? ==> cur == DefaultValue(f)
    requires EncValue(f, v).Some? && |EncValue(f, v).value| < LIMIT
    ensures DecValue(f, cur, EncValue(f, v).value + t)
         == if ValueMerges(f, cur, v) then Parsed(MergeValue(f, cur, v), t) else NoParse
    decreases f, 0
  {
    if Packable(f.ltype) {
      ScalarRoundTrip(f, v.n, t);
    } else if !f.ltype.LSubmessage? {
      BlobRoundTrip(f, v.bytes, t);
    } else {
      var fields := f.ltype.fields;
      var body := EncMessage(fields, v.slots).value;
      assert EncValue(f, v).value == EncString(body);
      DefaultTyped(fields);
      var start := Start(f, cur).slots;
      if |body| >= TWO_32 {
        DelimitedRejects(body, t);
      } else {
        DelimitedRoundTrip(body, t);
        MessageStep(fields, start, v.slots);
      }
    }
  }

  /** Storing the merged value of row `i` advances the merge by one row. */
  lemma RowAdvances(fields: seq<Field>, cur: seq<Slot>, b: seq<Slot>, i: nat, r: seq<Slot>)
    requires SchemaOK(fields) && Typed(fields, cur) && Typed(fields, b) && i < |fields| && |r| == |fields|
    requires FieldOK(fields[i]) && SlotTyped(fields[i], cur[i]) && SlotTyped(fields[i], b[i])
    requires forall j :: 0 <= j < |fields| && j != i ==>
      r[j] == if Present(b[i]) && SameUnion(fields[i], fields[j]) then Maybe(None) else MergeRow(fields, cur, b, i, j)
    requires r[i] == if Present(b[i]) && fields[i].htype.Oneof? then b[i]
                     else if fields[i].htype.Oneof? then MergeRow(fields, cur, b, i, i)
                     else MergeSlot(fields[i], cur[i], b[i])
    ensures r == MergeRows(fields, cur, b, i + 1)
  {
    forall j | 0 <= j < |fields|
      ensures r[j] == MergeRow(fields, cur, b, i + 1, j)
    {
      hide MergeSlot;
      var f := fields[j];
      assert SlotTyped(f, b[j]);
      if f.htype.Oneof? {
        UnionSetNext(fields, b, i, f);
      }
    }
  }

  lemma UnionSetNext(fields: seq<Field>, b: seq<Slot>, i: nat, f: Field)
    requires |b| == |fields| && i < |fields|
    ensures UnionSet(fields, b, i + 1, f) <==> UnionSet(fields, b, i, f) || (SameUnion(fields[i], f) && Present(b[i]))
  {
    if SameUnion(fields[i], f) && Present(b[i]) {
      assert UnionSet(fields, b, i + 1, f);
    }
  }

  /** What comes of reading row `i` of `b` over a message with the earlier rows merged in. */
  ghost predicate Advances(fields: seq<Field>, cur: seq<Slot>, b: seq<Slot>, i: nat,
                           s: seq<Byte>, t: seq<Byte>, seen: set<nat>, seen': set<nat>, ok: bool)
    requires SchemaOK(fields) && Typed(fields, cur) && Typed(fields, b) && i < |fields|
  {
    DecFields(fields, s + t, MergeRows(fields, cur, b, i), seen)
    == if ok then DecFields(fields, t, MergeRows(fields, cur, b, i + 1), seen') else Failed
  }

  lemma StoreAdvances(fields: seq<Field>, cur: seq<Slot>, b: seq<Slot>, i: nat, v: Value)
    requires SchemaOK(fields) && Typed(fields, cur) && Typed(fields, b) && i < |fields|
    requires FieldOK(fields[i]) && SlotTyped(fields[i], cur[i]) && SlotTyped(fields[i], b[i])
    requires b[i] == Maybe(Some(v)) || (b[i] == Single(v) && !(Singular(fields[i]) && IsDefaultValue(fields[i], v)))
    ensures var p := MergeRows(fields, cur, b, i);
      && SlotTyped(fields[i], p[i]) && Current(fields[i], p[i]) == Current(fields[i], cur[i])
      && Store(fields, p, i, MergeValue(fields[i], Current(fields[i], cur[i]), v)) == MergeRows(fields, cur, b, i + 1)
  {
    hide MergeValue;
    var f, p, c := fields[i], MergeRows(fields, cur, b, i), Current(fields[i], cur[i]);
    assert p[i] == MergeRow(fields, cur, b, i, i) && SlotTyped(f, p[i]);
    if f.htype.Oneof? {
      MergeValueDefault(f, c, v);
    }
    RowAdvances(fields, cur, b, i, Store(fields, p, i, MergeValue(f, c, v)));
  }

  /** A row that is written as one field. */
  lemma TaggedStep(fields: seq<Field>, cur: seq<Slot>, b: seq<Slot>, i: nat, v: Value, t: seq<Byte>, seen: set<nat>)
    requires SchemaOK(fields) && Typed(fields, cur) && Typed(fields, b) && i < |fields|
    requires FieldOK(fields[i]) && SlotTyped(fields[i], cur[i]) && SlotTyped(fields[i], b[i])
    requires b[i] == Maybe(Some(v)) || (b[i] == Single(v) && !(Singular(fields[i]) && IsDefaultValue(fields[i], v)))
    requires EncTagged(fields[i], v).Some? && |EncTagged(fields[i], v).value| < LIMIT
    ensures Advances(fields, cur, b, i, EncTagged(fields[i], v).value, t, seen, seen + {fields[i].tag},
                     RowMerges(fields[i], cur[i], b[i]))
    decreases fields[i], 2
  {
    hide DecFields, DecValue, MergeValue, ValueMerges, EncValue, Store, MergeRows;
    var f, p := fields[i], MergeRows(fields, cur, b, i);
    var body, c := EncValue(f, v).value, Current(f, cur[i]);
    StoreAdvances(fields, cur, b, i, v);
    ValueStep(f, c, v, t);
    FieldStep(fields, i, WireType(f.ltype), body, t, p, seen);
    assert EncTagged(f, v).value == EncTag(WireType(f.ltype), f.tag) + body;
  }

  // ----- arrays -----

  /** The merge before array `i`, with its first `k` items joined on. */
  function JoinedItems(fields: seq<Field>, cur: seq<Slot>, b: seq<Slot>, i: nat, k: nat): (r: seq<Slot>)
    requires SchemaOK(fields) && Typed(fields, cur) && Typed(fields, b) && i < |fields|
    requires FieldOK(fields[i]) && SlotTyped(fields[i], cur[i]) && SlotTyped(fields[i], b[i])
    requires fields[i].htype.Repeated? && k <= |b[i].vs|
    ensures Typed(fields, r) && r[i] == Many(cur[i].vs + b[i].vs[..k])
    ensures k == 0 ==> r == MergeRows(fields, cur, b, i)
    ensures k == |b[i].vs| ==> r == MergeRows(fields, cur, b, i + 1)
  {
    var p := MergeRows(fields, cur, b, i);
    assert p[i] == MergeRow(fields, cur, b, i, i);
    var r := p[i := Many(cur[i].vs + b[i].vs[..k])];
    assert cur[i].vs + b[i].vs[..0] == cur[i].vs;
    assert b[i].vs[..|b[i].vs|] == b[i].vs;
    if k == |b[i].vs| then RowAdvances(fields, cur, b, i, r); r else r
  }

  lemma {:induction false} ItemsStep(fields: seq<Field>, cur: seq<Slot>, b: seq<Slot>, i: nat, k: nat,
                                     t: seq<Byte>, seen: set<nat>)
    requires SchemaOK(fields) && Typed(fields, cur) && Typed(fields, b) && i < |fields|
    requires FieldOK(fields[i]) && SlotTyped(fields[i], cur[i]) && SlotTyped(fields[i], b[i])
    requires fields[i].htype.Repeated? && !Packable(fields[i].ltype) && k <= |b[i].vs|
    requires EncItems(fields[i], b[i].vs[k..]).Some? && |EncItems(fields[i], b[i].vs[k..]).value| < LIMIT
    ensures DecFields(fields, EncItems(fields[i], b[i].vs[k..]).value + t, JoinedItems(fields, cur, b, i, k), seen)
         == if ItemsMerge(fields[i], cur[i], b[i], k)
            then DecFields(fields, t, MergeRows(fields, cur, b, i + 1),
                           if k < |b[i].vs| then seen + {fields[i].tag} else seen)
            else Failed
    decreases fields[i], 3, |b[i].vs| - k
  {
    hide DecFields, DecValue, EncValue, MergeValue, ValueMerges;
    var f, vs, p := fields[i], b[i].vs, JoinedItems(fields, cur, b, i, k);
    var e := EncItems(f, vs[k..]).value;
    if k == |vs| {
      assert e + t == t;
    } else {
      assert vs[k..][0] == vs[k] && vs[k..][1..] == vs[k + 1..];
      var body, tail := EncValue(f, vs[k]).value, EncItems(f, vs[k + 1..]).value;
      assert e + t == EncTag(WireType(f.ltype), f.tag) + body + (tail + t);
      FieldStep(fields, i, WireType(f.ltype), body, tail + t, p, seen);
      if |cur[i].vs| + k < f.arraySize {
        DefaultValueTyped(f);
        ValueStep(f, DefaultValue(f), vs[k], tail + t);
        MergeValueDefault(f, DefaultValue(f), vs[k]);
        ItemStored(fields, cur, b, i, k);
        ItemsStep(fields, cur, b, i, k + 1, t, seen + {f.tag});
        assert seen + {f.tag} + {f.tag} == seen + {f.tag};
      }
    }
  }

  lemma ItemStored(fields: seq<Field>, cur: seq<Slot>, b: seq<Slot>, i: nat, k: nat)
    requires SchemaOK(fields) && Typed(fields, cur) && Typed(fields, b) && i < |fields|
    requires FieldOK(fields[i]) && SlotTyped(fields[i], cur[i]) && SlotTyped(fields[i], b[i])
    requires fields[i].htype.Repeated? && k < |b[i].vs|
    ensures var p := JoinedItems(fields, cur, b, i, k);
      && SlotTyped(fields[i], p[i]) && Current(fields[i], p[i]) == DefaultValue(fields[i])
      && Store(fields, p, i, b[i].vs[k]) == JoinedItems(fields, cur, b, i, k + 1)
  {
    var vs := b[i].vs;
    assert cur[i].vs + vs[..k] + [vs[k]] == cur[i].vs + vs[..k + 1];
  }

  /** Items `k` and later of array `s` can be joined to `cur` and the ones before. */
  ghost predicate ItemsMerge(f: Field, cur: Slot, s: Slot, k: nat)
    requires FieldOK(f) && f.htype.Repeated? && SlotTyped(f, cur) && SlotTyped(f, s) && k <= |s.vs|
  {
    DefaultValueTyped(f);
    k == |s.vs| ||
    (|cur.vs| + |s.vs| <= f.arraySize && forall j :: k <= j < |s.vs| ==> ValueMerges(f, DefaultValue(f), s.vs[j]))
  }

  lemma PackedStep(fields: seq<Field>, cur: seq<Slot>, b: seq<Slot>, i: nat, t: seq<Byte>, seen: set<nat>)
    requires SchemaOK(fields) && Typed(fields, cur) && Typed(fields, b) && i < |fields|
    requires FieldOK(fields[i]) && SlotTyped(fields[i], cur[i]) && SlotTyped(fields[i], b[i])
    requires fields[i].htype.Repeated? && Packable(fields[i].ltype) && b[i].vs != []
    requires EncArray(fields[i], b[i].vs).Some? && |EncArray(fields[i], b[i].vs).value| < LIMIT
    ensures Advances(fields, cur, b, i, EncArray(fields[i], b[i].vs).value, t, seen, seen + {fields[i].tag},
                     RowMerges(fields[i], cur[i], b[i]))
  {
    hide DecFields, DecPacked, MergeRows, DecDelimited, EncPacked, EncVarint, MergeSlot;
    var f, vs, p := fields[i], b[i].vs, JoinedItems(fields, cur, b, i, 0);
    assert cur[i].vs + vs[..0] == cur[i].vs && vs[..|vs|] == vs;
    var payload := EncPacked(f, vs).value;
    assert EncArray(f, vs).value + t == EncTag(WT_STRING, f.tag) + EncString(payload) + t;
    FieldStep(fields, i, WT_STRING, EncString(payload), t, p, seen);
    if |payload| >= TWO_32 {
      DelimitedRejects(payload, t);
    } else {
      DelimitedRoundTrip(payload, t);
      PackedRoundTrip(f, cur[i].vs, vs);
      assert p[i := Many(cur[i].vs + vs)] == JoinedItems(fields, cur, b, i, |vs|);
    }
  }

  // ----- messages -----

  /** Row `i`, whatever its kind. */
  lemma RowStep(fields: seq<Field>, cur: seq<Slot>, b: seq<Slot>, i: nat, t: seq<Byte>, seen: set<nat>)
    requires SchemaOK(fields) && Typed(fields, cur) && Typed(fields, b) && i < |fields|
    requires FieldOK(fields[i]) && SlotTyped(fields[i], cur[i]) && SlotTyped(fields[i], b[i])
    requires EncSlot(fields[i], b[i]).Some? && |EncSlot(fields[i], b[i]).value| < LIMIT
    ensures var e := EncSlot(fields[i], b[i]).value;
      Advances(fields, cur, b, i, e, t, seen, if e == [] then seen else seen + {fields[i].tag},
               RowMerges(fields[i], cur[i], b[i]))
    decreases fields[i], 4
  {
    hide DecFields, EncArray, EncItems, EncTagged, MergeRows, ValueMerges;
    var f, s := fields[i], b[i];
    var e := EncSlot(f, s).value;
    EncSlotCases(f, s);
    if e == [] {
      assert e + t == t;
      SilentRow(fields, cur, b, i);
    } else if !f.htype.Repeated? {
      TaggedStep(fields, cur, b, i, if s.Single? then s.v else s.o.value, t, seen);
    } else if Packable(f.ltype) {
      PackedStep(fields, cur, b, i, t, seen);
    } else {
      assert s.vs[0..] == s.vs;
      ItemsStep(fields, cur, b, i, 0, t, seen);
      assert RowMerges(f, cur[i], s) == ItemsMerge(f, cur[i], s, 0);
    }
  }

  /** A row that is not written changes nothing. */
  lemma SilentRow(fields: seq<Field>, cur: seq<Slot>, b: seq<Slot>, i: nat)
    requires SchemaOK(fields) && Typed(fields, cur) && Typed(fields, b) && i < |fields|
    requires FieldOK(fields[i]) && SlotTyped(fields[i], cur[i]) && SlotTyped(fields[i], b[i])
    requires b[i] == Maybe(None) || b[i] == Many([]) || (Singular(fields[i]) && IsDefaultValue(fields[i], b[i].v))
    ensures MergeRows(fields, cur, b, i) == MergeRows(fields, cur, b, i + 1)
  {
    if b[i].Many? {
      assert cur[i].vs + [] == cur[i].vs;
    }
    RowAdvances(fields, cur, b, i, MergeRows(fields, cur, b, i));
  }

  /** The tags met in reading the rows from `i` on, after those in `seen`. */
  ghost function SeenAfter(fields: seq<Field>, b: seq<Slot>, i: nat, seen: set<nat>): (r: set<nat>)
    requires Typed(fields, b) && i <= |fields| && EncFrom(fields, b, i).Some?
    decreases |fields| - i
  {
    if i == |fields| then seen
    else SeenAfter(fields, b, i + 1, if EncSlot(fields[i], b[i]).value == [] then seen else seen + {fields[i].tag})
  }

  /** The rows from `i` on, in front of anything: all of them are merged in, or the run fails. */
  lemma {:induction false} RunStep(fields: seq<Field>, cur: seq<Slot>, b: seq<Slot>, i: nat, seen: set<nat>, t: seq<Byte>)
    requires SchemaOK(fields) && Typed(fields, cur) && Typed(fields, b) && i <= |fields|
    requires EncFrom(fields, b, i).Some? && |EncFrom(fields, b, i).value| < LIMIT
    ensures DecFields(fields, EncFrom(fields, b, i).value + t, MergeRows(fields, cur, b, i), seen)
         == if RowsMerge(fields, cur, b, i) then DecFields(fields, t, Merge(fields, cur, b), SeenAfter(fields, b, i, seen))
            else Failed
    decreases fields, 4, |fields| - i
  {
    if i == |fields| {
      assert EncFrom(fields, b, i).value + t == t;
    } else {
      hide DecFields, EncSlot, MergeRows, RowMerges;
      assert FieldOK(fields[i]) && SlotTyped(fields[i], cur[i]) && SlotTyped(fields[i], b[i]);
      var e, rest := EncSlot(fields[i], b[i]).value, EncFrom(fields, b, i + 1).value;
      EncSlotCases(fields[i], b[i]);
      assert EncFrom(fields, b, i).value + t == e + (rest + t);
      RowStep(fields, cur, b, i, rest + t, seen);
      RunStep(fields, cur, b, i + 1, if e == [] then seen else seen + {fields[i].tag}, t);
    }
  }

  lemma {:induction false} SeenGrows(fields: seq<Field>, b: seq<Slot>, i: nat, seen: set<nat>)
    requires Typed(fields, b) && i <= |fields| && EncFrom(fields, b, i).Some?
    ensures seen <= SeenAfter(fields, b, i, seen)
    decreases |fields| - i
  {
    hide EncSlot;
    if i < |fields| {
      SeenGrows(fields, b, i + 1, if EncSlot(fields[i], b[i]).value == [] then seen else seen + {fields[i].tag});
    }
  }

  /** A required row is always written. */
  lemma {:induction false} SeenRequired(fields: seq<Field>, b: seq<Slot>, i: nat, seen: set<nat>, j: nat)
    requires Typed(fields, b) && i <= j < |fields| && fields[j].htype.Required? && EncFrom(fields, b, i).Some?
    ensures fields[j].tag in SeenAfter(fields, b, i, seen)
    decreases j - i
  {
    hide EncSlot;
    assert SlotTyped(fields[i], b[i]);
    EncSlotCases(fields[i], b[i]);
    var seen' := if EncSlot(fields[i], b[i]).value == [] then seen else seen + {fields[i].tag};
    if i == j { SeenGrows(fields, b, i + 1, seen'); } else { SeenRequired(fields, b, i + 1, seen', j); }
  }

  ghost predicate RowsMerge(fields: seq<Field>, cur: seq<Slot>, b: seq<Slot>, i: nat)
    requires SchemaOK(fields) && Typed(fields, cur) && Typed(fields, b)
  {
    forall j :: i <= j < |fields| ==>
      && FieldOK(fields[j]) && SlotTyped(fields[j], cur[j]) && SlotTyped(fields[j], b[j])
      && RowMerges(fields[j], cur[j], b[j])
  }

  lemma FinishedRun(fields: seq<Field>, slots: seq<Slot>, seen: set<nat>)
    requires SchemaOK(fields) && Typed(fields, slots)
    ensures DecFields(fields, [], slots, seen) == Finished(slots, seen, [], false)
  {
  }

  /** Reading an encoded message over `cur` leaves exactly the merge of the two and no byte unread; it fails
      exactly when an array would outgrow its storage or a length needs more than 32 bits. */
  lemma {:induction false} MessageStep(fields: seq<Field>, cur: seq<Slot>, b: seq<Slot>)
    requires SchemaOK(fields) && Typed(fields, cur) && Typed(fields, b)
    requires EncMessage(fields, b).Some? && |EncMessage(fields, b).value| < LIMIT
    ensures DecodeNoinit(fields, EncMessage(fields, b).value, cur)
         == if MessageMerges(fields, cur, b) then Some(Decoded(Merge(fields, cur, b), [])) else None
    decreases fields, 6
  {
    hide DecFields, EncFrom;
    var e := EncMessage(fields, b).value;
    MessageRun(fields, cur, b, {}, []);
    assert e + [] == e;
    FinishedRun(fields, Merge(fields, cur, b), SeenAfter(fields, b, 0, {}));
  }

  /** An encoded message in front of anything is merged in, with every required row met, or the run fails. */
  lemma {:induction false} MessageRun(fields: seq<Field>, cur: seq<Slot>, b: seq<Slot>, seen: set<nat>, t: seq<Byte>)
    requires SchemaOK(fields) && Typed(fields, cur) && Typed(fields, b)
    requires EncMessage(fields, b).Some? && |EncMessage(fields, b).value| < LIMIT
    ensures EncFrom(fields, b, 0).Some? && RequiredSeen(fields, SeenAfter(fields, b, 0, seen))
    ensures DecFields(fields, EncMessage(fields, b).value + t, cur, seen)
         == if MessageMerges(fields, cur, b) then DecFields(fields, t, Merge(fields, cur, b), SeenAfter(fields, b, 0, seen))
            else Failed
    decreases fields, 5
  {
    hide DecFields, EncFrom, SeenAfter;
    RunStep(fields, cur, b, 0, seen, t);
    NothingMerged(fields, cur, b);
    assert RowsMerge(fields, cur, b, 0) == MessageMerges(fields, cur, b);
    forall j | 0 <= j < |fields| && fields[j].htype.Required? ensures fields[j].tag in SeenAfter(fields, b, 0, seen) {
      SeenRequired(fields, b, 0, seen, j);
    }
  }

  lemma NothingMerged(fields: seq<Field>, cur: seq<Slot>, b: seq<Slot>)
    requires SchemaOK(fields) && Typed(fields, cur) && Typed(fields, b)
    ensures MergeRows(fields, cur, b, 0) == cur
  {
    forall j | 0 <= j < |fields|
      ensures MergeRow(fields, cur, b, 0, j) == cur[j]
    {
    }
  }
}
