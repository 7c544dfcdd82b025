/** Where a decoder that fails leaves its stream. Every reader keeps the end of the stream where it was, but for one: a
    packed array given up with bytes unread has been taken off the count of what is left and is not passed over. */
module Shortfall {
  import opened Bits
  import opened Varint
  import opened Schema
  import opened Encoding
  import opened Decoding

  /** The bytes still unread after a scalar could not be decoded: a word is not begun without all its bytes, a varint is
      given up after ten. */
  function ScalarUnread(f: Field, s: seq<Byte>): (n: nat)
    requires Packable(f.ltype)
    ensures n <= |s|
  {
    if f.ltype.LFixed32? || f.ltype.LFixed64? then |s|
    else
      var p := DecVarint(s);
      if p.Parsed? then |p.rest| else if |s| > 10 then |s| - 10 else 0
  }

  /** The bytes of a packed array still unread when the loop over its items stops, with `count` items stored before. */
  function PackedUnread(f: Field, s: seq<Byte>, count: nat): (n: nat)
    requires Packable(f.ltype)
    ensures n <= |s|
    decreases |s|
  {
    if s == [] then 0
    else if count >= f.arraySize then |s|
    else
      var p := DecScalar(f, s);
      if p.NoParse? then ScalarUnread(f, s) else PackedUnread(f, p.rest, count + 1)
  }

  /** How far a packed field stops short: by its whole length, or not at all. */
  function PackedShort(f: Field, s: seq<Byte>, count: nat): (n: nat)
    requires Packable(f.ltype)
    ensures n <= |s|
  {
    var sub := DecDelimited(s);
    if sub.Parsed? && PackedUnread(f, sub.value, count) > 0 then |sub.value| else 0
  }

  /** How far a value stops short: a submessage by as much as its body does. */
  function ValueShort(f: Field, cur: Value, s: seq<Byte>): (n: nat)
    requires FieldOK(f) && ValueTyped(f, cur)
    ensures n <= |s|
    decreases |s|, 1
  {
    if !f.ltype.LSubmessage? then 0
    else
      var sub := DecDelimited(s);
      if sub.NoParse? then 0
      else
        var fields := f.ltype.fields;
        DefaultTyped(fields);
        MessageShort(fields, sub.value, if f.htype.Repeated? then DefaultMessage(fields) else cur.slots)
  }

  function FieldShort(fields: seq<Field>, slots: seq<Slot>, i: nat, wireType: nat, s: seq<Byte>): (n: nat)
    requires SchemaOK(fields) && Typed(fields, slots) && i < |fields|
    ensures n <= |s|
    decreases |s|, 2
  {
    var f, slot := fields[i], slots[i];
    assert FieldOK(f) && SlotTyped(f, slot);
    if f.htype.Repeated? && wireType == WT_STRING && Packable(f.ltype) then PackedShort(f, s, |slot.vs|)
    else if f.htype.Repeated? && |slot.vs| >= f.arraySize then 0
    else ValueShort(f, Current(f, slot), s)
  }

  /** How far a run over the fields of a message stops short. It is more than 0 when the run ends in a packed array, of
      the message or of a submessage in it, that is left with bytes unread. */
  function MessageShort(fields: seq<Field>, s: seq<Byte>, slots: seq<Slot>): (n: nat)
    requires SchemaOK(fields) && Typed(fields, slots)
    ensures n <= |s|
    decreases |s|, 3
  {
    if s == [] then 0
    else
      match DecKey(s)
      case BadKey => 0
      case EndOfMessage(_) => 0
      case Key(wireType, tag, rest) =>
        match FindTag(fields, tag)
        case None =>
          if fields == [] && tag == 0 then 0
          else
            var p := SkipField(rest, wireType);
            if p.NoParse? then 0 else MessageShort(fields, p.rest, slots)
        case Some(i) =>
          var p := DecField(fields, slots, i, wireType, rest);
          if p.NoParse? then FieldShort(fields, slots, i, wireType, rest) else MessageShort(fields, p.rest, p.value)
  }

  function DefaultShort(fields: seq<Field>, s: seq<Byte>): (n: nat)
    requires SchemaOK(fields)
    ensures n <= |s|
  {
    DefaultTyped(fields);
    MessageShort(fields, s, DefaultMessage(fields))
  }

  /** How far a delimited message stops short of its declared end. */
  function DelimitedShort(fields: seq<Field>, s: seq<Byte>): (n: nat)
    requires SchemaOK(fields)
    ensures n <= |s|
  {
    var sub := DecDelimited(s);
    if sub.NoParse? then 0 else DefaultShort(fields, sub.value)
  }

  // ----- what stops short has failed -----

  lemma {:induction false} PackedShortFails(f: Field, s: seq<Byte>, vs: seq<Value>)
    requires Packable(f.ltype) && forall k :: 0 <= k < |vs| ==> ValueTyped(f, vs[k])
    requires PackedUnread(f, s, |vs|) > 0
    ensures DecPacked(f, s, vs) == None
    decreases |s|
  {
    hide DecScalar, ScalarUnread;
    if s != [] && |vs| < f.arraySize {
      var p := DecScalar(f, s);
      if p.Parsed? { PackedShortFails(f, p.rest, vs + [p.value]); }
    }
  }

  lemma {:induction false} ValueShortFails(f: Field, cur: Value, s: seq<Byte>)
    requires FieldOK(f) && ValueTyped(f, cur) && ValueShort(f, cur, s) > 0
    ensures DecValue(f, cur, s).NoParse?
    decreases |s|, 1
  {
    hide DecFields, RequiredSeen, DecDelimited;
    var sub, fields := DecDelimited(s), f.ltype.fields;
    DefaultTyped(fields);
    MessageShortFails(fields, sub.value, if f.htype.Repeated? then DefaultMessage(fields) else cur.slots, {});
  }

  lemma {:induction false} FieldShortFails(fields: seq<Field>, slots: seq<Slot>, i: nat, wireType: nat, s: seq<Byte>)
    requires SchemaOK(fields) && Typed(fields, slots) && i < |fields| && FieldShort(fields, slots, i, wireType, s) > 0
    ensures DecField(fields, slots, i, wireType, s).NoParse?
    decreases |s|, 2
  {
    hide DecValue, DecPacked, DecDelimited, ValueShort, PackedUnread;
    var f, slot := fields[i], slots[i];
    assert FieldOK(f) && SlotTyped(f, slot);
    if f.htype.Repeated? && wireType == WT_STRING && Packable(f.ltype) {
      PackedShortFails(f, DecDelimited(s).value, slot.vs);
    } else {
      ValueShortFails(f, Current(f, slot), s);
    }
  }

  /** A message stops short only by failing. */
  lemma {:induction false} MessageShortFails(fields: seq<Field>, s: seq<Byte>, slots: seq<Slot>, seen: set<nat>)
    requires SchemaOK(fields) && Typed(fields, slots) && MessageShort(fields, s, slots) > 0
    ensures DecFields(fields, s, slots, seen) == Failed
    decreases |s|, 3
  {
    hide DecKey, DecField, SkipField, FieldShort, FindTag;
    match DecKey(s)
    case Key(wireType, tag, rest) =>
      match FindTag(fields, tag) {
        case None => MessageShortFails(fields, SkipField(rest, wireType).rest, slots, seen);
        case Some(i) =>
          var p := DecField(fields, slots, i, wireType, rest);
          if p.Parsed? { MessageShortFails(fields, p.rest, p.value, seen + {tag}); }
      }
  }

  lemma FieldNoneShort(fields: seq<Field>, slots: seq<Slot>, i: nat, wireType: nat, s: seq<Byte>)
    requires SchemaOK(fields) && Typed(fields, slots) && i < |fields|
    ensures DecField(fields, slots, i, wireType, s).Parsed? ==> FieldShort(fields, slots, i, wireType, s) == 0
  {
    hide DecField, FieldShort;
    if FieldShort(fields, slots, i, wireType, s) > 0 { FieldShortFails(fields, slots, i, wireType, s); }
  }

  lemma NoneShort(fields: seq<Field>, s: seq<Byte>, slots: seq<Slot>)
    requires SchemaOK(fields) && Typed(fields, slots)
    ensures DecodeNoinit(fields, s, slots).Some? ==> MessageShort(fields, s, slots) == 0
  {
    hide DecFields, MessageShort;
    if MessageShort(fields, s, slots) > 0 { MessageShortFails(fields, s, slots, {}); }
  }

  lemma DefaultNoneShort(fields: seq<Field>, s: seq<Byte>)
    requires SchemaOK(fields)
    ensures Decode(fields, s).Some? ==> DefaultShort(fields, s) == 0
  {
    hide DecodeNoinit, MessageShort;
    DefaultTyped(fields);
    NoneShort(fields, s, DefaultMessage(fields));
  }
}
