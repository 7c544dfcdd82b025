/** The encoder itself: it walks a field iterator and writes on a stream what `Encoding` says. */
module Encoder {
  import opened Bits
  import opened Varint
  import opened Schema
  import opened Encoding
  import opened OutputStream
  import opened FieldIter
  import Decoding
  import Pieces
  import RoundTrip

  method EncodeTag(stream: Stream, wireType: nat, tag: nat) returns (ok: bool)
    requires stream.Valid() && wireType < 8 && tag <= MAX_TAG
    modifies stream, stream.buffer
    ensures stream.Valid() && stream.buffer == old(stream.buffer)
    ensures Wrote(old(stream.Abs()), stream.Abs(), Some(EncTag(wireType, tag)), ok)
  {
    ok := stream.WriteVarint(8 * tag + wireType);
  }

  method EncodeString(stream: Stream, b: seq<Byte>) returns (ok: bool)
    requires stream.Valid() && |b| < TWO_64
    modifies stream, stream.buffer
    ensures stream.Valid() && stream.buffer == old(stream.buffer)
    ensures Wrote(old(stream.Abs()), stream.Abs(), Some(EncString(b)), ok)
  {
    hide Wrote, EncVarint;
    ghost var v0 := stream.Abs();
    ok := stream.WriteVarint(|b|);
    ghost var v1 := stream.Abs();
    if ok {
      ok := stream.Write(b);
      WroteBoth(v0, v1, stream.Abs(), Some(EncVarint(|b|)), Some(b), ok);
    } else {
      WroteNothingMore(v0, v1, stream.Abs(), Some(EncVarint(|b|)), Some(b));
    }
    AppendSome(EncVarint(|b|), b);
  }

  lemma AppendSome(a: seq<Byte>, b: seq<Byte>)
    ensures Append(Some(a), Some(b)) == Some(a + b)
  {
  }

  /** When the first part does not come through, the whole does not. */
  lemma WroteNothingMore(v0: View, v1: View, v2: View, a: Encoded, b: Encoded)
    requires v0.Valid() && Wrote(v0, v1, a, false)
    ensures Wrote(v0, v2, Append(a, b), false)
  {
  }

  method EncodeScalar(stream: Stream, f: Field, n: int) returns (ok: bool)
    requires stream.Valid() && Packable(f.ltype) && ValueTyped(f, Num(n))
    modifies stream, stream.buffer
    ensures stream.Valid() && stream.buffer == old(stream.buffer)
    ensures Wrote(old(stream.Abs()), stream.Abs(), EncScalar(f, n), ok)
  {
    hide EncVarint;
    if f.ltype.LFixed32? {
      ok := stream.Write(FixedBytes(n, 4));
    } else if f.ltype.LFixed64? {
      ok := stream.Write(FixedBytes(n, 8));
    } else if !ValidIntSize(f.dataSize) {
      ok := false;
    } else if f.ltype.LVarint? {
      ok := stream.WriteVarint(Unsigned64(n));
    } else if f.ltype.LUvarint? {
      ok := stream.WriteVarint(n);
    } else {
      ZigzagInverse(n, 0);
      ok := stream.WriteVarint(Zigzag(n));
    }
  }

  /** The four or eight bytes of a word, shifted out one by one. */
  function FixedBytes(n: nat, width: nat): (s: seq<Byte>)
    requires width == 4 || width == 8
    ensures s == EncFixed(n, width)
  {
    hide EncFixed;
    var n1 := n / 0x100;
    var n2 := n1 / 0x100;
    var n3 := n2 / 0x100;
    var n4 := n3 / 0x100;
    var n5 := n4 / 0x100;
    var n6 := n5 / 0x100;
    var n7 := n6 / 0x100;
    FixedCons(n, width); FixedCons(n1, width - 1); FixedCons(n2, width - 2); FixedCons(n3, width - 3);
    if width == 4 then
      [n % 0x100, n1 % 0x100, n2 % 0x100, n3 % 0x100]
    else
      FixedCons(n4, 4); FixedCons(n5, 3); FixedCons(n6, 2); FixedCons(n7, 1);
      [n % 0x100, n1 % 0x100, n2 % 0x100, n3 % 0x100, n4 % 0x100, n5 % 0x100, n6 % 0x100, n7 % 0x100]
  }

  lemma FixedCons(n: nat, width: nat)
    requires width > 0
    ensures EncFixed(n, width) == [n % 0x100] + EncFixed(n / 0x100, width - 1)
    ensures EncFixed(n, 0) == []
  {
  }

  method EncodeBlob(stream: Stream, f: Field, b: seq<Byte>) returns (ok: bool)
    requires stream.Valid() && (f.ltype.LBytes? || f.ltype.LString? || f.ltype.LFixedLengthBytes?)
    requires f.dataSize <= SIZE_MAX && ValueTyped(f, Blob(b))
    modifies stream, stream.buffer
    ensures stream.Valid() && stream.buffer == old(stream.buffer)
    ensures Wrote(old(stream.Abs()), stream.Abs(), EncValue(f, Blob(b)), ok)
  {
    hide EncString, View.Plus;
    if f.ltype.LBytes? && |b| + BYTES_HEADER > f.dataSize {
      return false;
    }
    ok := EncodeString(stream, b);
  }

  /** The length comes from a pass that only counts; the second pass, confined to that length, writes. */
  method EncodeSubmessage(stream: Stream, fields: seq<Field>, slots: seq<Slot>) returns (ok: bool)
    requires stream.Valid() && SchemaOK(fields) && Typed(fields, slots) && LengthsBelow(fields, slots, TWO_64)
    requires EncMessage(fields, slots).Some? ==> |EncMessage(fields, slots).value| < TWO_64
    modifies stream, stream.buffer
    ensures stream.Valid() && stream.buffer == old(stream.buffer)
    ensures Wrote(old(stream.Abs()), stream.Abs(), EncDelimited(fields, slots), ok)
    decreases fields, 7
  {
    hide EncMessage, EncVarint, SchemaOK, Typed, LengthsBelow;
    ghost var v0 := stream.Abs();
    var substream := new Stream.Sizing();
    ok := EncodeMessage(substream, fields, slots);
    if !ok {
      return;
    }
    ghost var e := EncMessage(fields, slots).value;
    AppendSome(EncVarint(|e|), e);
    var size := substream.bytesWritten;
    ok := stream.WriteVarint(size);
    ghost var v1 := stream.Abs();
    if !ok {
      WroteNothingMore(v0, v1, v1, Some(EncVarint(size)), Some(e));
      return;
    }
    if stream.buffer == null {
      stream.Count(size);
      WroteBoth(v0, v1, stream.Abs(), Some(EncVarint(size)), Some(e), true);
      return true;
    }
    if stream.bytesWritten + size > stream.maxSize {
      WroteBoth(v0, v1, v1, Some(EncVarint(size)), Some(e), false);
      return false;
    }
    ok := EncodeAgain(stream, substream, fields, slots, size);
    WroteBoth(v0, v1, stream.Abs(), Some(EncVarint(size)), Some(e), ok);
  }

  /** The second pass, with a substream as long as the first pass counted. */
  method EncodeAgain(stream: Stream, substream: Stream, fields: seq<Field>, slots: seq<Slot>, size: nat)
    returns (ok: bool)
    requires stream.Valid() && stream.buffer != null && stream.bytesWritten + size <= stream.maxSize
    requires SchemaOK(fields) && Typed(fields, slots) && LengthsBelow(fields, slots, TWO_64)
    requires EncMessage(fields, slots).Some? && |EncMessage(fields, slots).value| == size < TWO_64
    requires substream != stream
    modifies stream, stream.buffer, substream
    ensures stream.Valid() && stream.buffer == old(stream.buffer)
    ensures Wrote(old(stream.Abs()), stream.Abs(), EncMessage(fields, slots), ok)
    decreases fields, 7, 0
  {
    hide EncMessage, SchemaOK, Typed, LengthsBelow;
    substream.buffer := stream.buffer;
    substream.state := stream.state;
    substream.maxSize := size;
    substream.bytesWritten := 0;
    ok := EncodeMessage(substream, fields, slots);
    stream.bytesWritten := stream.bytesWritten + substream.bytesWritten;
    stream.state := substream.state;
    if substream.bytesWritten != size {
      // "submsg size changed": both passes count the same bytes, so this cannot happen.
      assert false;
    }
  }

  method EncodeValue(stream: Stream, f: Field, v: Value) returns (ok: bool)
    requires stream.Valid() && FieldOK(f) && ValueTyped(f, v) && ValueLengthsBelow(f, v, TWO_64)
    modifies stream, stream.buffer
    ensures stream.Valid() && stream.buffer == old(stream.buffer)
    ensures Wrote(old(stream.Abs()), stream.Abs(), EncValue(f, v), ok)
    decreases f, 2
  {
    hide Wrote, EncDelimited, EncScalar;
    if Packable(f.ltype) {
      ok := EncodeScalar(stream, f, v.n);
    } else if f.ltype.LSubmessage? {
      ok := EncodeSubmessage(stream, f.ltype.fields, v.slots);
    } else {
      ok := EncodeBlob(stream, f, v.bytes);
    }
  }

  method EncodeTagged(stream: Stream, f: Field, v: Value) returns (ok: bool)
    requires stream.Valid() && FieldOK(f) && ValueTyped(f, v) && ValueLengthsBelow(f, v, TWO_64)
    modifies stream, stream.buffer
    ensures stream.Valid() && stream.buffer == old(stream.buffer)
    ensures Wrote(old(stream.Abs()), stream.Abs(), EncTagged(f, v), ok)
    decreases f, 3
  {
    hide Wrote, EncValue, EncVarint;
    ghost var v0 := stream.Abs();
    ok := EncodeTag(stream, WireType(f.ltype), f.tag);
    ghost var v1 := stream.Abs();
    if ok {
      ok := EncodeValue(stream, f, v);
      WroteBoth(v0, v1, stream.Abs(), Some(FieldKey(f)), EncValue(f, v), ok);
    } else {
      WroteNothingMore(v0, v1, v1, Some(FieldKey(f)), EncValue(f, v));
    }
  }

  /** Writing the items of a packed array one after the other; also run on a counting stream for their size. */
  method EncodePackedItems(stream: Stream, f: Field, vs: seq<Value>) returns (ok: bool)
    requires stream.Valid() && Packable(f.ltype) && forall k :: 0 <= k < |vs| ==> ValueTyped(f, vs[k])
    modifies stream, stream.buffer
    ensures stream.Valid() && stream.buffer == old(stream.buffer)
    ensures Wrote(old(stream.Abs()), stream.Abs(), EncPacked(f, vs), ok)
  {
    hide Wrote, EncScalar;
    ghost var v0, done := stream.Abs(), [];
    var i := 0;
    WroteNil(v0);
    AppendToNothing(EncPacked(f, vs));
    assert vs[0..] == vs;
    while i < |vs|
      invariant 0 <= i <= |vs| && stream.Valid() && stream.buffer == old(stream.buffer)
      invariant EncPacked(f, vs) == Append(Some(done), EncPacked(f, vs[i..]))
      invariant Wrote(v0, stream.Abs(), Some(done), true)
    {
      assert ValueTyped(f, vs[i]) && vs[i] == Num(vs[i].n);
      assert vs[i..][0] == vs[i] && vs[i..][1..] == vs[i + 1..];
      ghost var v1, e, rest := stream.Abs(), EncScalar(f, vs[i].n), EncPacked(f, vs[i + 1..]);
      ok := EncodeScalar(stream, f, vs[i].n);
      WroteBoth(v0, v1, stream.Abs(), Some(done), e, ok);
      AppendAssoc(Some(done), e, rest);
      if !ok {
        WroteNothingMore(v0, stream.Abs(), stream.Abs(), Append(Some(done), e), rest);
        return;
      }
      WroteSome(v0, stream.Abs(), Append(Some(done), e));
      done := done + e.value;
      i := i + 1;
    }
    AppendNil(done);
    ok := true;
  }

  lemma WroteNil(v: View)
    requires v.Valid()
    ensures Wrote(v, v, Some([]), true)
  {
    v.PlusNothing();
  }

  lemma WroteSome(v0: View, v1: View, e: Encoded)
    requires v0.Valid() && Wrote(v0, v1, e, true)
    ensures e.Some?
  {
  }

  lemma AppendAssoc(a: Encoded, b: Encoded, c: Encoded)
    ensures Append(Append(a, b), c) == Append(a, Append(b, c))
  {
    if a.Some? && b.Some? && c.Some? {
      assert a.value + b.value + c.value == a.value + (b.value + c.value);
    }
  }

  lemma AppendNil(a: seq<Byte>)
    ensures Append(Some(a), Some([])) == Some(a)
  {
    assert a + [] == a;
  }

  lemma AppendToNothing(e: Encoded)
    ensures Append(Some([]), e) == e
  {
    if e.Some? {
      assert [] + e.value == e.value;
    }
  }

  method EncodePackedArray(stream: Stream, f: Field, vs: seq<Value>) returns (ok: bool)
    requires stream.Valid() && Packable(f.ltype) && f.tag <= MAX_TAG
    requires forall k :: 0 <= k < |vs| ==> ValueTyped(f, vs[k])
    requires EncPacked(f, vs).Some? ==> |EncPacked(f, vs).value| < TWO_64
    modifies stream, stream.buffer
    ensures stream.Valid() && stream.buffer == old(stream.buffer)
    ensures Wrote(old(stream.Abs()), stream.Abs(), PackedField(f, vs), ok)
  {
    hide Wrote, EncVarint, EncPacked, EncTag;
    ghost var v0 := stream.Abs();
    ok := EncodeTag(stream, WT_STRING, f.tag);
    ghost var v1 := stream.Abs();
    ghost var key := Some(EncTag(WT_STRING, f.tag));
    if !ok {
      PackedParts(f, vs);
      WroteNothingMore(v0, v1, v1, key, PackedBody(f, vs));
      return;
    }
    PackedParts(f, vs);
    ok := EncodePackedBody(stream, f, vs);
    WroteBoth(v0, v1, stream.Abs(), key, PackedBody(f, vs), ok);
  }

  function PackedBody(f: Field, vs: seq<Value>): Encoded
    requires Packable(f.ltype) && forall k :: 0 <= k < |vs| ==> ValueTyped(f, vs[k])
  {
    var p := EncPacked(f, vs);
    if p.None? then None else Some(EncString(p.value))
  }

  function PackedField(f: Field, vs: seq<Value>): Encoded
    requires Packable(f.ltype) && forall k :: 0 <= k < |vs| ==> ValueTyped(f, vs[k])
  {
    var p := EncPacked(f, vs);
    if p.None? then None else Some(EncTag(WT_STRING, f.tag) + EncString(p.value))
  }

  lemma PackedParts(f: Field, vs: seq<Value>)
    requires Packable(f.ltype) && forall k :: 0 <= k < |vs| ==> ValueTyped(f, vs[k])
    ensures PackedField(f, vs) == Append(Some(EncTag(WT_STRING, f.tag)), PackedBody(f, vs))
  {
  }

  method EncodePackedBody(stream: Stream, f: Field, vs: seq<Value>) returns (ok: bool)
    requires stream.Valid() && Packable(f.ltype)
    requires forall k :: 0 <= k < |vs| ==> ValueTyped(f, vs[k])
    requires EncPacked(f, vs).Some? ==> |EncPacked(f, vs).value| < TWO_64
    modifies stream, stream.buffer
    ensures stream.Valid() && stream.buffer == old(stream.buffer)
    ensures Wrote(old(stream.Abs()), stream.Abs(), PackedBody(f, vs), ok)
  {
    hide EncVarint, EncPacked, EncTag;
    ghost var v0 := stream.Abs();
    var size: nat;
    if f.ltype.LFixed32? {
      size := 4 * |vs|;
      FixedPackedSize(f, vs);
    } else if f.ltype.LFixed64? {
      size := 8 * |vs|;
      FixedPackedSize(f, vs);
    } else {
      var sizeStream := new Stream.Sizing();
      ok := EncodePackedItems(sizeStream, f, vs);
      if !ok {
        return;
      }
      size := sizeStream.bytesWritten;
    }
    ghost var payload := EncPacked(f, vs).value;
    AppendSome(EncVarint(|payload|), payload);
    ok := stream.WriteVarint(size);
    ghost var v1 := stream.Abs();
    if !ok {
      WroteNothingMore(v0, v1, v1, Some(EncVarint(size)), Some(payload));
      return;
    }
    if stream.buffer == null {
      stream.Count(size);
      ok := true;
    } else {
      ok := EncodePackedItems(stream, f, vs);
    }
    WroteBoth(v0, v1, stream.Abs(), Some(EncVarint(size)), Some(payload), ok);
  }

  lemma {:induction false} FixedPackedSize(f: Field, vs: seq<Value>)
    requires f.ltype.LFixed32? || f.ltype.LFixed64?
    requires forall k :: 0 <= k < |vs| ==> ValueTyped(f, vs[k])
    ensures EncPacked(f, vs).Some?
    ensures |EncPacked(f, vs).value| == (if f.ltype.LFixed32? then 4 else 8) * |vs|
  {
    if vs != [] {
      assert ValueTyped(f, vs[0]);
      FixedPackedSize(f, vs[1..]);
    }
  }

  method EncodeArray(stream: Stream, f: Field, vs: seq<Value>) returns (ok: bool)
    requires stream.Valid() && FieldOK(f) && f.htype.Repeated?
    requires SlotTyped(f, Many(vs)) && RowLengthsBelow(f, Many(vs), TWO_64)
    modifies stream, stream.buffer
    ensures stream.Valid() && stream.buffer == old(stream.buffer)
    ensures Wrote(old(stream.Abs()), stream.Abs(), EncArray(f, vs), ok)
    decreases f, 4
  {
    hide Wrote, EncPacked, EncTagged, EncVarint;
    ghost var v0, done := stream.Abs(), [];
    WroteNil(v0);
    if |vs| == 0 {
      return true;
    }
    if |vs| > f.arraySize {
      WroteNone(v0, v0);
      return false;
    }
    if Packable(f.ltype) {
      ok := EncodePackedArray(stream, f, vs);
      return;
    }
    var i := 0;
    assert vs[0..] == vs && EncArray(f, vs) == EncItems(f, vs);
    AppendToNothing(EncArray(f, vs));
    while i < |vs|
      invariant 0 <= i <= |vs| && stream.Valid() && stream.buffer == old(stream.buffer)
      invariant EncArray(f, vs) == Append(Some(done), EncItems(f, vs[i..]))
      invariant Wrote(v0, stream.Abs(), Some(done), true)
    {
      assert ValueTyped(f, vs[i]) && vs[i..][0] == vs[i] && vs[i..][1..] == vs[i + 1..];
      ghost var v1, e, rest := stream.Abs(), EncTagged(f, vs[i]), EncItems(f, vs[i + 1..]);
      ok := EncodeTagged(stream, f, vs[i]);
      WroteBoth(v0, v1, stream.Abs(), Some(done), e, ok);
      AppendAssoc(Some(done), e, rest);
      if !ok {
        WroteNothingMore(v0, stream.Abs(), stream.Abs(), Append(Some(done), e), rest);
        return;
      }
      WroteSome(v0, stream.Abs(), Append(Some(done), e));
      done := done + e.value;
      i := i + 1;
    }
    AppendNil(done);
    ok := true;
  }

  lemma WroteNone(v0: View, v1: View)
    requires v0.Valid()
    ensures Wrote(v0, v1, None, false)
  {
  }

  /** Whether a row counts as absent under the proto3 rules; for a submessage this looks at each of its rows. */
  method CheckDefaultValue(f: Field, v: Value) returns (isDefault: bool)
    requires FieldOK(f) && ValueTyped(f, v)
    ensures isDefault <==> IsDefaultValue(f, v)
    decreases f, 0
  {
    if f.ltype.LBytes? || f.ltype.LString? {
      return |v.bytes| == 0;
    } else if f.ltype.LFixedLengthBytes? {
      return f.dataSize == 0;
    } else if !f.ltype.LSubmessage? {
      return v.n == 0;
    }
    var fields := f.ltype.fields;
    RowsTagged(fields);
    var iter := new FieldIterator(fields);
    var more := iter.Begin();
    while more
      invariant iter.Valid() && iter.fields == fields && (more ==> iter.pos < |fields|)
      invariant forall j :: 0 <= j < |fields| && (more ==> j < iter.pos) ==> IsDefaultSlot(fields, v.slots, j)
      decreases more, |fields| - iter.pos
    {
      var row := CheckDefaultSlot(fields, v.slots, iter.pos);
      if !row {
        return false;
      }
      more := iter.Next();
    }
    return true;
  }

  method CheckDefaultSlot(fields: seq<Field>, slots: seq<Slot>, i: nat) returns (isDefault: bool)
    requires SchemaOK(fields) && Typed(fields, slots) && i < |fields|
    ensures isDefault <==> IsDefaultSlot(fields, slots, i)
    decreases fields, 1
  {
    var f, s := fields[i], slots[i];
    assert FieldOK(f) && SlotTyped(f, s);
    match f.htype
    case Required => isDefault := false;
    case Repeated => isDefault := |s.vs| == 0;
    case Oneof(_) => isDefault := forall j :: 0 <= j < |fields| && SameUnion(f, fields[j]) ==> !Present(slots[j]);
    case Optional =>
      if Singular(f) {
        isDefault := CheckDefaultValue(f, s.v);
      } else {
        isDefault := s.o.None?;
      }
  }

  method EncodeField(stream: Stream, f: Field, s: Slot) returns (ok: bool)
    requires stream.Valid() && FieldOK(f) && SlotTyped(f, s) && RowLengthsBelow(f, s, TWO_64)
    modifies stream, stream.buffer
    ensures stream.Valid() && stream.buffer == old(stream.buffer)
    ensures Wrote(old(stream.Abs()), stream.Abs(), EncSlot(f, s), ok)
    decreases f, 5
  {
    hide Wrote, EncTagged, EncArray;
    WroteNil(stream.Abs());
    match f.htype
    case Required =>
      ok := EncodeTagged(stream, f, s.v);
    case Repeated =>
      ok := EncodeArray(stream, f, s.vs);
    case Optional =>
      ok := true;
      if Singular(f) {
        var isDefault := CheckDefaultValue(f, s.v);
        if !isDefault {
          ok := EncodeTagged(stream, f, s.v);
        }
      } else if s.o.Some? {
        ok := EncodeTagged(stream, f, s.o.value);
      }
    case Oneof(_) =>
      ok := true;
      if s.o.Some? {
        ok := EncodeTagged(stream, f, s.o.value);
      }
  }

  /** Encoding walks the rows once, in table order. */
  method EncodeMessage(stream: Stream, fields: seq<Field>, slots: seq<Slot>) returns (ok: bool)
    requires stream.Valid() && SchemaOK(fields) && Typed(fields, slots) && LengthsBelow(fields, slots, TWO_64)
    modifies stream, stream.buffer
    ensures stream.Valid() && stream.buffer == old(stream.buffer)
    ensures Wrote(old(stream.Abs()), stream.Abs(), EncMessage(fields, slots), ok)
    decreases fields, 6
  {
    hide Wrote, EncSlot, SchemaOK, RowLengthsBelow;
    RowsTagged(fields);
    ghost var v0, done := stream.Abs(), [];
    WroteNil(v0);
    AppendToNothing(EncMessage(fields, slots));
    var iter := new FieldIterator(fields);
    var more := iter.Begin();
    while more
      invariant iter.Valid() && iter.fields == fields && (more ==> iter.pos < |fields|)
      invariant stream.Valid() && stream.buffer == old(stream.buffer)
      invariant EncMessage(fields, slots) == Append(Some(done), EncFrom(fields, slots, if more then iter.pos else |fields|))
      invariant Wrote(v0, stream.Abs(), Some(done), true)
      decreases more, |fields| - iter.pos
    {
      var f, s := fields[iter.pos], slots[iter.pos];
      RowOK(fields, slots, iter.pos);
      ghost var v1, e, rest := stream.Abs(), EncSlot(f, s), EncFrom(fields, slots, iter.pos + 1);
      ok := EncodeField(stream, f, s);
      WroteBoth(v0, v1, stream.Abs(), Some(done), e, ok);
      AppendAssoc(Some(done), e, rest);
      if !ok {
        WroteNothingMore(v0, stream.Abs(), stream.Abs(), Append(Some(done), e), rest);
        return;
      }
      WroteSome(v0, stream.Abs(), Append(Some(done), e));
      done := done + e.value;
      more := iter.Next();
    }
    AppendNil(done);
    ok := true;
  }

  lemma RowOK(fields: seq<Field>, slots: seq<Slot>, i: nat)
    requires SchemaOK(fields) && Typed(fields, slots) && LengthsBelow(fields, slots, TWO_64) && i < |fields|
    ensures FieldOK(fields[i]) && SlotTyped(fields[i], slots[i]) && RowLengthsBelow(fields[i], slots[i], TWO_64)
  {
  }

  method GetEncodedSize(fields: seq<Field>, slots: seq<Slot>) returns (ok: bool, size: nat)
    requires SchemaOK(fields) && Typed(fields, slots) && LengthsBelow(fields, slots, TWO_64)
    ensures ok <==> EncMessage(fields, slots).Some?
    ensures ok ==> size == |EncMessage(fields, slots).value|
  {
    hide EncMessage;
    var stream := new Stream.Sizing();
    ok := EncodeMessage(stream, fields, slots);
    size := stream.bytesWritten;
  }

  /** Encoding into a buffer succeeds exactly when sizing the message does and the size fits; then the buffer
      starts with the encoding, and `pb_decode` makes the message out of those bytes again. */
  method EncodeToBuffer(buf: array<Byte>, fields: seq<Field>, slots: seq<Slot>) returns (ok: bool, written: nat)
    requires SchemaOK(fields) && Typed(fields, slots) && LengthsBelow(fields, slots, TWO_64)
    modifies buf
    ensures ok <==> EncMessage(fields, slots).Some? && |EncMessage(fields, slots).value| <= buf.Length
    ensures ok ==> written <= buf.Length && buf[..written] == EncMessage(fields, slots).value
    ensures ok ==> buf[written..] == old(buf[written..])
    ensures ok && RoundTrip.MessageLengthsFit(fields, slots) && written < Pieces.LIMIT ==>
      Decoding.Decode(fields, buf[..written]) == Some(Decoding.Decoded(slots, []))
  {
    hide EncMessage, RoundTrip.MessageLengthsFit;
    var stream := new Stream.FromBuffer(buf);
    ghost var v0 := stream.Abs();
    ok := EncodeMessage(stream, fields, slots);
    written := stream.bytesWritten;
    if ok {
      ghost var e := EncMessage(fields, slots).value;
      assert buf[..] == v0.Plus(e).contents;
      assert buf[..written] == e;
      if written < Pieces.LIMIT {
        RoundTrip.MessageRoundTrip(fields, slots);
      }
    }
  }
}
