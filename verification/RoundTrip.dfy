/** The codec's laws: the round trip, concatenation as merge, and delimited streams of messages. */
module RoundTrip {
  import opened Bits
  import opened Varint
  import opened Schema
  import opened Encoding
  import opened Decoding
  import opened Pieces
  import opened Merging

  // ----- the one limit of the round trip -----

  /** The decoder reads every length as a 32-bit number. */
  ghost predicate MessageLengthsFit(fields: seq<Field>, slots: seq<Slot>)
    requires Typed(fields, slots)
  {
    LengthsBelow(fields, slots, TWO_32)
  }

  lemma {:induction false} ValueFitsMerges(f: Field, cur: Value, v: Value)
    requires FieldOK(f) && ValueTyped(f, v) && ValueTyped(f, cur) && EncValue(f, v).Some?
    requires cur == DefaultValue(f)
    ensures ValueMerges(f, cur, v) <==> ValueLengthsBelow(f, v, TWO_32)
    decreases f, 0
  {
    if f.ltype.LSubmessage? {
      DefaultTyped(f.ltype.fields);
      FitsMerges(f.ltype.fields, v.slots);
    }
  }

  lemma {:induction false} ItemFitsMerges(f: Field, vs: seq<Value>, k: nat)
    requires FieldOK(f) && k < |vs|
    requires forall j :: 0 <= j < |vs| ==> ValueTyped(f, vs[j])
    requires EncItems(f, vs).Some?
    ensures ValueTyped(f, DefaultValue(f))
    ensures ValueMerges(f, DefaultValue(f), vs[k]) <==> ValueLengthsBelow(f, vs[k], TWO_32)
    decreases f, 1, |vs|
  {
    hide ValueMerges, ValueLengthsBelow;
    DefaultValueTyped(f);
    if k == 0 {
      ValueFitsMerges(f, DefaultValue(f), vs[0]);
    } else {
      assert vs[1..][k - 1] == vs[k];
      ItemFitsMerges(f, vs[1..], k - 1);
    }
  }

  lemma RowFitsMerges(f: Field, s: Slot)
    requires FieldOK(f) && SlotTyped(f, s) && EncSlot(f, s).Some?
    ensures SlotTyped(f, DefaultSlot(f))
    ensures RowMerges(f, DefaultSlot(f), s) <==> RowLengthsBelow(f, s, TWO_32)
    decreases f, 2
  {
    hide ValueMerges, ValueLengthsBelow;
    DefaultValueTyped(f);
    EncSlotCases(f, s);
    match s
    case Single(v) =>
      if !(Singular(f) && IsDefaultValue(f, v)) { ValueFitsMerges(f, DefaultValue(f), v); }
    case Maybe(o) =>
      if o.Some? { ValueFitsMerges(f, Current(f, DefaultSlot(f)), o.value); }
    case Many(vs) =>
      if vs != [] && !Packable(f.ltype) {
        forall k | 0 <= k < |vs| ensures ValueMerges(f, DefaultValue(f), vs[k]) <==> ValueLengthsBelow(f, vs[k], TWO_32) {
          ItemFitsMerges(f, vs, k);
        }
      }
  }

  lemma {:induction false} RowEncodes(fields: seq<Field>, slots: seq<Slot>, i: nat, j: nat)
    requires Typed(fields, slots) && j <= i < |fields| && EncFrom(fields, slots, j).Some?
    ensures SlotTyped(fields[i], slots[i]) && EncSlot(fields[i], slots[i]).Some?
    decreases i - j
  {
    if j < i { RowEncodes(fields, slots, i, j + 1); }
  }

  /** Merging into the defaults goes through exactly when the lengths fit. */
  lemma {:induction false} FitsMerges(fields: seq<Field>, slots: seq<Slot>)
    requires SchemaOK(fields) && Typed(fields, slots) && EncMessage(fields, slots).Some?
    ensures Typed(fields, DefaultMessage(fields))
    ensures MessageMerges(fields, DefaultMessage(fields), slots) <==> MessageLengthsFit(fields, slots)
    decreases fields, 3
  {
    hide RowMerges, RowLengthsBelow, EncSlot;
    DefaultTyped(fields);
    var d := DefaultMessage(fields);
    forall i | 0 <= i < |fields|
      ensures FieldOK(fields[i]) && SlotTyped(fields[i], slots[i]) && SlotTyped(fields[i], d[i])
      ensures RowMerges(fields[i], d[i], slots[i]) <==> RowLengthsBelow(fields[i], slots[i], TWO_32)
    {
      RowEncodes(fields, slots, i, 0);
      assert d[i] == DefaultSlot(fields[i]);
      RowFitsMerges(fields[i], slots[i]);
    }
  }

  // ----- the laws -----

  /** For every message the encoder accepts: `pb_decode` gives it back and uses every byte, unless some length
      inside needs more than 32 bits, and then it fails. */
  lemma MessageRoundTrip(fields: seq<Field>, slots: seq<Slot>)
    requires SchemaOK(fields) && Typed(fields, slots)
    requires EncMessage(fields, slots).Some? && |EncMessage(fields, slots).value| < LIMIT
    ensures Decode(fields, EncMessage(fields, slots).value)
         == if MessageLengthsFit(fields, slots) then Some(Decoded(slots, [])) else None
  {
    FitsMerges(fields, slots);
    MessageStep(fields, DefaultMessage(fields), slots);
    MergeDefault(fields, slots);
  }

  /** One call on the bytes of `a` and then of `b` is the two calls, `pb_decode` and then `pb_decode_noinit`: both fail if
      `a` alone cannot be read, and otherwise the result is the merge, or a failure when the two cannot be merged. */
  lemma ConcatenationIsMerge(fields: seq<Field>, a: seq<Slot>, b: seq<Slot>)
    requires SchemaOK(fields) && Typed(fields, a) && Typed(fields, b)
    requires EncMessage(fields, a).Some? && |EncMessage(fields, a).value| < LIMIT
    requires EncMessage(fields, b).Some? && |EncMessage(fields, b).value| < LIMIT
    ensures var ea, eb := EncMessage(fields, a).value, EncMessage(fields, b).value;
      if !MessageLengthsFit(fields, a) then Decode(fields, ea) == None && Decode(fields, ea + eb) == None
      else
        && Decode(fields, ea) == Some(Decoded(a, []))
        && Decode(fields, ea + eb) == DecodeNoinit(fields, eb, a)
        && Decode(fields, ea + eb)
           == if MessageMerges(fields, a, b) then Some(Decoded(Merge(fields, a, b), [])) else None
  {
    hide MessageMerges, Merge, DecFields, SeenAfter, EncFrom;
    var ea, eb, d := EncMessage(fields, a).value, EncMessage(fields, b).value, DefaultMessage(fields);
    MessageRoundTrip(fields, a);
    FitsMerges(fields, a);
    MessageRun(fields, d, a, {}, eb);
    MergeDefault(fields, a);
    if MessageLengthsFit(fields, a) {
      MessageStep(fields, a, b);
      var seen := SeenAfter(fields, a, 0, {});
      MessageRun(fields, a, b, seen, []);
      assert eb + [] == eb;
      FinishedRun(fields, Merge(fields, a, b), SeenAfter(fields, b, 0, seen));
    }
  }

  // ----- a message that is written and not read back -----

  /** One row: a submessage with one row of as many bytes as a size can say. */
  function LongTable(): seq<Field> {
    [Field(1, LSubmessage(LongRow()), Required, 0, 0, SIZE_MAX, 0, None)]
  }

  function LongRow(): seq<Field> {
    [Field(1, LFixedLengthBytes, Required, 0, 0, SIZE_MAX, 0, None)]
  }

  function LongMessage(): seq<Slot> {
    [Single(Struct([Single(Blob(ZeroBytes(SIZE_MAX)))]))]
  }

  lemma OneRequired(f: Field, v: Value)
    requires ValueTyped(f, v) && f.htype.Required?
    ensures Typed([f], [Single(v)]) && EncMessage([f], [Single(v)]) == EncTagged(f, v)
  {
    hide EncTagged;
    assert SlotTyped(f, Single(v));
    var e := EncTagged(f, v);
    if e.Some? { assert e.value + [] == e.value; }
    assert EncFrom([f], [Single(v)], 1) == Some([]);
    assert EncFrom([f], [Single(v)], 0) == Append(EncSlot(f, Single(v)), EncFrom([f], [Single(v)], 1));
  }

  /** With the key and the length in front, the inner message needs more than 32 bits for its length. */
  lemma LongMessageLost()
    ensures SchemaOK(LongTable()) && Typed(LongTable(), LongMessage())
    ensures EncMessage(LongTable(), LongMessage()).Some? && |EncMessage(LongTable(), LongMessage()).value| < LIMIT
    ensures !MessageLengthsFit(LongTable(), LongMessage())
    ensures Decode(LongTable(), EncMessage(LongTable(), LongMessage()).value) == None
  {
    hide EncVarint, EncMessage, Decode;
    LongBody();
    var f, v := LongTable()[0], Struct(LongMessage()[0].v.slots);
    var body := EncMessage(LongRow(), v.slots).value;
    OneRequired(f, v);
    VarintRoundTrip(8 * 1 + WT_STRING, []);
    VarintRoundTrip(|body|, []);
    assert !ValueLengthsBelow(f, v, TWO_32);
    assert !RowLengthsBelow(f, Single(v), TWO_32);
    MessageRoundTrip(LongTable(), LongMessage());
  }

  /** The message inside. */
  lemma LongBody()
    ensures SchemaOK(LongRow()) && Typed(LongRow(), LongMessage()[0].v.slots)
    ensures EncMessage(LongRow(), LongMessage()[0].v.slots).Some?
    ensures TWO_32 <= |EncMessage(LongRow(), LongMessage()[0].v.slots).value| <= SIZE_MAX + 20
  {
    hide EncVarint, EncMessage;
    var g, bytes := LongRow()[0], ZeroBytes(SIZE_MAX);
    assert FieldOK(g);
    OneRequired(g, Blob(bytes));
    VarintRoundTrip(8 * 1 + WT_STRING, []);
    VarintRoundTrip(|bytes|, []);
  }

  // ----- delimited messages -----

  /** What the decoder of a body that decodes leaves unread is skipped: the stream goes on right after the declared length.
      Where it goes on after a body that fails is in `Shortfall`. */
  function DecodeDelimited(fields: seq<Field>, s: seq<Byte>): (r: Option<Decoded>)
    requires SchemaOK(fields)
    ensures r.Some? ==> Typed(fields, r.value.slots) && DecDelimited(s).Parsed? && r.value.rest == DecDelimited(s).rest
  {
    var sub := DecDelimited(s);
    if sub.NoParse? then None
    else
      var d := Decode(fields, sub.value);
      if d.None? then None else Some(Decoded(d.value.slots, sub.rest))
  }

  ghost predicate AllTyped(fields: seq<Field>, messages: seq<seq<Slot>>) {
    messages == [] || (Typed(fields, messages[0]) && AllTyped(fields, messages[1..]))
  }

  /** The bytes of several messages written one after the other. */
  function EncStream(fields: seq<Field>, messages: seq<seq<Slot>>): Encoded
    requires AllTyped(fields, messages)
  {
    if messages == [] then Some([])
    else Append(EncDelimited(fields, messages[0]), EncStream(fields, messages[1..]))
  }

  /** Reading `n` delimited messages in a row. */
  function DecodeStream(fields: seq<Field>, n: nat, s: seq<Byte>): Option<(seq<seq<Slot>>, seq<Byte>)>
    requires SchemaOK(fields)
  {
    if n == 0 then Some(([], s))
    else
      var d := DecodeDelimited(fields, s);
      if d.None? then None
      else
        var r := DecodeStream(fields, n - 1, d.value.rest);
        if r.None? then None else Some(([d.value.slots] + r.value.0, r.value.1))
  }

  ghost predicate Deliverable(fields: seq<Field>, m: seq<Slot>) {
    Typed(fields, m) && MessageLengthsFit(fields, m) && EncMessage(fields, m).Some? && |EncMessage(fields, m).value| < TWO_32
  }

  lemma DelimitedMessage(fields: seq<Field>, m: seq<Slot>, t: seq<Byte>)
    requires SchemaOK(fields) && Deliverable(fields, m)
    ensures Typed(fields, m) && EncDelimited(fields, m).Some?
    ensures DecodeDelimited(fields, EncDelimited(fields, m).value + t) == Some(Decoded(m, t))
  {
    hide EncMessage, Decode, DecDelimited, EncString;
    DelimitedRoundTrip(EncMessage(fields, m).value, t);
    MessageRoundTrip(fields, m);
  }

  lemma StreamCons(fields: seq<Field>, m: seq<Slot>, rest: seq<seq<Slot>>)
    requires AllTyped(fields, rest) && EncStream(fields, rest).Some?
    requires Typed(fields, m) && EncDelimited(fields, m).Some?
    ensures AllTyped(fields, [m] + rest)
    ensures EncStream(fields, [m] + rest) == Some(EncDelimited(fields, m).value + EncStream(fields, rest).value)
  {
    hide EncDelimited, Typed;
    assert ([m] + rest)[1..] == rest;
  }

  lemma DecodeStreamCons(fields: seq<Field>, m: seq<Slot>, rest: seq<seq<Slot>>, s: seq<Byte>, s': seq<Byte>,
      t: seq<Byte>)
    requires SchemaOK(fields) && DecodeDelimited(fields, s) == Some(Decoded(m, s'))
    requires DecodeStream(fields, |rest|, s') == Some((rest, t))
    ensures DecodeStream(fields, |rest| + 1, s) == Some(([m] + rest, t))
  {
    hide DecodeDelimited, SchemaOK;
  }

  lemma StreamNil(fields: seq<Field>, t: seq<Byte>)
    requires SchemaOK(fields)
    ensures AllTyped(fields, []) && EncStream(fields, []) == Some([])
    ensures DecodeStream(fields, 0, [] + t) == Some(([], t))
  {
    assert [] + t == t;
  }

  /** Back-to-back delimited messages come out one at a time, in order, and the stream ends where they end. */
  lemma {:induction false} DelimitedStream(fields: seq<Field>, messages: seq<seq<Slot>>, t: seq<Byte>)
    requires SchemaOK(fields) && forall m | m in messages :: Deliverable(fields, m)
    ensures AllTyped(fields, messages) && EncStream(fields, messages).Some?
    ensures DecodeStream(fields, |messages|, EncStream(fields, messages).value + t) == Some((messages, t))
    decreases messages
  {
    hide DecodeDelimited, EncDelimited, Deliverable, Typed, SchemaOK, DecodeStream, EncStream, AllTyped;
    if messages == [] {
      StreamNil(fields, t);
    } else {
      var m, rest := messages[0], messages[1..];
      assert [m] + rest == messages;
      DelimitedStream(fields, rest, t);
      var tail := EncStream(fields, rest).value;
      DelimitedMessage(fields, m, tail + t);
      var head := EncDelimited(fields, m).value;
      StreamCons(fields, m, rest);
      assert head + tail + t == head + (tail + t);
      DecodeStreamCons(fields, m, rest, head + (tail + t), tail + t, t);
    }
  }
}
