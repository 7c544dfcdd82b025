/** The decoder itself: it moves a stream's cursor and a field iterator, and does what `Decoding` says. */
module Decoder {
  import opened Bits
  import opened Varint
  import opened Schema
  import opened Encoding
  import opened Decoding
  import opened InputStream
  import opened FieldIter
  import opened RequiredBits
  import opened Shortfall
  import opened DelimitedReading
  import RoundTrip

  /** The varint decoders: read, cast to the storage size, and check that the cast lost nothing. */
  method DecodeScalar(stream: Stream, f: Field) returns (ok: bool, v: Value)
    requires stream.Valid() && Packable(f.ltype)
    modifies stream
    ensures stream.Valid() && stream.End() == old(stream.End())
    ensures ok <==> DecScalar(f, old(stream.Rest())).Parsed?
    ensures ok ==> DecScalar(f, old(stream.Rest())) == Parsed(v, stream.Rest())
    ensures !ok ==> stream.bytesLeft == ScalarUnread(f, old(stream.Rest()))
  {
    hide DecVarint, DecFixed;
    var word: nat, n: int;
    v := Num(0);
    if f.ltype.LFixed32? {
      ok, word := stream.ReadFixed32();
      return ok, Num(word);
    }
    if f.ltype.LFixed64? {
      ok, word := stream.ReadFixed64();
      return ok, Num(word);
    }
    ok, word := stream.ReadVarint();
    if !ok {
      return;
    }
    if f.ltype.LUvarint? {
      n := word;
      ok := ValidIntSize(f.dataSize) && UnsignedFits(n, f.dataSize);
    } else {
      n := if f.ltype.LSvarint? then Unzigzag(word)
           else if f.dataSize == 8 then Signed64(word)
           else Signed32(word);
      ok := ValidIntSize(f.dataSize) && SignedFits(n, f.dataSize);
    }
    v := Num(n);
  }

  method DecodeBlob(stream: Stream, f: Field) returns (ok: bool, v: Value)
    requires stream.Valid() && (f.ltype.LBytes? || f.ltype.LString? || f.ltype.LFixedLengthBytes?)
    modifies stream
    ensures stream.Valid() && stream.End() == old(stream.End())
    ensures ok <==> DecBlob(f, old(stream.Rest())).Parsed?
    ensures ok ==> DecBlob(f, old(stream.Rest())) == Parsed(v, stream.Rest())
  {
    hide DecVarint32, UpToNul;
    var size: nat, bytes: seq<Byte>;
    v := Blob([]);
    ok, size := stream.ReadVarint32();
    if !ok {
      return;
    }
    if f.ltype.LBytes? {
      if size + BYTES_HEADER > f.dataSize {
        return false, v;
      }
    } else if f.ltype.LString? {
      if size == SIZE_MAX || size + 1 > f.dataSize {
        return false, v;
      }
    } else {
      if size == 0 {
        return true, Blob(ZeroBytes(f.dataSize));
      }
      if size != f.dataSize {
        return false, v;
      }
    }
    ok, bytes := stream.Read(size);
    if ok {
      v := Blob(if f.ltype.LString? then UpToNul(bytes) else bytes);
    }
  }

  method DecodeSubmessage(stream: Stream, f: Field, cur: Value) returns (ok: bool, v: Value)
    requires stream.Valid() && FieldOK(f) && ValueTyped(f, cur) && f.ltype.LSubmessage?
    modifies stream
    ensures stream.Valid() && stream.End() == old(stream.End()) - ValueShort(f, cur, old(stream.Rest()))
    ensures ok <==> DecValue(f, cur, old(stream.Rest())).Parsed?
    ensures ok ==> DecValue(f, cur, old(stream.Rest())) == Parsed(v, stream.Rest())
    decreases stream.bytesLeft, 1
  {
    hide DecDelimited, Decoding.DecodeNoinit, MessageShort;
    var sub: Stream, slots: seq<Slot>;
    v := cur;
    ok, sub := stream.OpenSubstream();
    if !ok {
      return;
    }
    DefaultTyped(f.ltype.fields);
    if f.htype.Repeated? {
      slots := DefaultMessage(f.ltype.fields);
    } else {
      slots := cur.slots;
    }
    var status;
    NoneShort(f.ltype.fields, sub.Rest(), slots);
    status, slots := DecodeNoinit(sub, f.ltype.fields, slots);
    stream.CloseSubstream(sub);
    return status, Struct(slots);
  }

  /** Dispatch on the wire-level type. */
  method DecodeValue(stream: Stream, f: Field, cur: Value) returns (ok: bool, v: Value)
    requires stream.Valid() && FieldOK(f) && ValueTyped(f, cur)
    modifies stream
    ensures stream.Valid() && stream.End() == old(stream.End()) - ValueShort(f, cur, old(stream.Rest()))
    ensures ok <==> DecValue(f, cur, old(stream.Rest())).Parsed?
    ensures ok ==> DecValue(f, cur, old(stream.Rest())) == Parsed(v, stream.Rest())
    decreases stream.bytesLeft, 2
  {
    hide DecScalar, DecBlob, DecDelimited, MessageShort;
    if Packable(f.ltype) {
      ok, v := DecodeScalar(stream, f);
    } else if f.ltype.LSubmessage? {
      ok, v := DecodeSubmessage(stream, f, cur);
    } else {
      ok, v := DecodeBlob(stream, f);
    }
  }

  /** A packed array: items are read off the substream while there are bytes and there is room. With bytes left over it
      fails without closing the substream, and this stream ends that much earlier. */
  method DecodePacked(stream: Stream, f: Field, items: seq<Value>) returns (ok: bool, vs: seq<Value>)
    requires stream.Valid() && Packable(f.ltype) && forall k :: 0 <= k < |items| ==> ValueTyped(f, items[k])
    modifies stream
    ensures stream.Valid() && stream.End() == old(stream.End()) - PackedShort(f, old(stream.Rest()), |items|)
    ensures ok <==> DecDelimited(old(stream.Rest())).Parsed?
                    && DecPacked(f, DecDelimited(old(stream.Rest())).value, items).Some?
    ensures ok ==> DecPacked(f, DecDelimited(old(stream.Rest())).value, items).value == vs
                   && stream.Rest() == DecDelimited(old(stream.Rest())).rest
  {
    hide DecDelimited, DecScalar, ScalarUnread;
    var sub: Stream;
    var status := true;
    vs := items;
    ok, sub := stream.OpenSubstream();
    if !ok {
      return;
    }
    ghost var payload, end, at, left := sub.Rest(), sub.End(), stream.state, stream.bytesLeft;
    while status && sub.bytesLeft > 0 && |vs| < f.arraySize
      invariant sub.Valid() && sub.End() == end && stream.state == at && stream.bytesLeft == left
      invariant forall k :: 0 <= k < |vs| ==> ValueTyped(f, vs[k])
      invariant if status then DecPacked(f, payload, items) == DecPacked(f, sub.Rest(), vs)
                else DecPacked(f, payload, items) == None
      invariant PackedUnread(f, payload, |items|) == if status then PackedUnread(f, sub.Rest(), |vs|) else sub.bytesLeft
      decreases status, sub.bytesLeft
    {
      var v;
      status, v := DecodeScalar(sub, f);
      if status {
        vs := vs + [v];
      }
    }
    if sub.bytesLeft != 0 {
      return false, vs;
    }
    stream.CloseSubstream(sub);
    ok := status;
  }

  /** One occurrence of a row with static storage. */
  method DecodeStaticField(stream: Stream, fields: seq<Field>, i: nat, wireType: nat, dest: seq<Slot>)
    returns (ok: bool, slots: seq<Slot>)
    requires stream.Valid() && SchemaOK(fields) && Typed(fields, dest) && i < |fields|
    modifies stream
    ensures stream.Valid() && stream.End() == old(stream.End()) - FieldShort(fields, dest, i, wireType, old(stream.Rest()))
    ensures ok <==> DecField(fields, dest, i, wireType, old(stream.Rest())).Parsed?
    ensures ok ==> DecField(fields, dest, i, wireType, old(stream.Rest())) == Parsed(slots, stream.Rest())
    decreases stream.bytesLeft, 3
  {
    hide DecDelimited, DecValue, Store, DecPacked, ValueShort, PackedShort;
    var f := fields[i];
    assert FieldOK(f) && SlotTyped(f, dest[i]);
    slots := dest;
    if f.htype.Repeated? && wireType == WT_STRING && Packable(f.ltype) {
      var vs;
      ok, vs := DecodePacked(stream, f, dest[i].vs);
      if ok {
        slots := dest[i := Many(vs)];
      }
    } else if f.htype.Repeated? && |dest[i].vs| >= f.arraySize {
      ok := false;
    } else {
      var v;
      ok, v := DecodeValue(stream, f, Current(f, dest[i]));
      if ok {
        slots := Store(fields, dest, i, v);
      }
    }
  }

  /** Counting the required rows by walking the iterator to the end of the table. */
  method CountRequired(iter: FieldIterator) returns (count: nat)
    requires iter.Valid() && forall i :: 0 <= i < |iter.fields| ==> iter.fields[i].tag != 0
    modifies iter
    ensures iter.Valid()
    ensures count == RequiredIndex(iter.fields, |iter.fields|)
  {
    var last := Row(iter.fields, iter.pos);
    count := iter.requiredIndex;
    var more := iter.Next();
    while more
      invariant iter.Valid()
      invariant more ==> 0 < iter.pos && last == iter.fields[iter.pos - 1]
      invariant !more ==> iter.pos == 0 && last == (if iter.fields == [] then LAST_FIELD else iter.fields[|iter.fields| - 1])
      invariant !more ==> count == RequiredIndex(iter.fields, if iter.fields == [] then 0 else |iter.fields| - 1)
      decreases more, |iter.fields| - iter.pos
    {
      last := Row(iter.fields, iter.pos);
      count := iter.requiredIndex;
      more := iter.Next();
    }
    if last.htype.Required? && Row(iter.fields, iter.pos).tag != 0 {
      count := count + 1;
    }
  }

  /** The iterator's search and the search by tag agree. */
  lemma TagFound(fields: seq<Field>, tag: nat, found: bool, pos: nat)
    requires DistinctTags(fields) && pos <= |fields|
    requires found <==> (tag == 0 && fields == []) || exists i :: 0 <= i < |fields| && fields[i].tag == tag
    requires found && fields != [] ==> pos < |fields| && fields[pos].tag == tag
    ensures FindTag(fields, tag) == if found && fields != [] then Some(pos) else None
  {
  }

  lemma UnmarkedReflects(words: seq<nat>, fields: seq<Field>, seen: set<nat>, i: nat)
    requires DistinctTags(fields) && Reflects(words, fields, seen) && i < |fields|
    requires !fields[i].htype.Required? || RequiredIndex(fields, i) >= 64
    ensures Reflects(words, fields, seen + {fields[i].tag})
  {
    hide Marked;
  }

  /** One turn of the decoding loop. */
  method DecodeNext(stream: Stream, iter: FieldIterator, fieldsSeen: array<nat>, dest: seq<Slot>, ghost seen: set<nat>)
    returns (ok: bool, eof: bool, slots: seq<Slot>, ghost seen': set<nat>)
    requires stream.Valid() && stream.bytesLeft != 0 && iter.Valid()
    requires SchemaOK(iter.fields) && Typed(iter.fields, dest) && fieldsSeen.Length == 2
    requires Reflects(fieldsSeen[..], iter.fields, seen)
    modifies stream, iter, fieldsSeen
    ensures !ok ==> DecFields(iter.fields, old(stream.Rest()), dest, seen) == Failed
    ensures stream.Valid() && (ok ==> iter.Valid())
    ensures !ok ==> stream.End() == old(stream.End()) - MessageShort(iter.fields, old(stream.Rest()), dest)
    ensures ok ==> stream.End() == old(stream.End())
    ensures ok && eof ==> MessageShort(iter.fields, old(stream.Rest()), dest) == 0
    ensures ok ==> Typed(iter.fields, slots) && Reflects(fieldsSeen[..], iter.fields, seen')
    ensures ok && eof ==>
      DecFields(iter.fields, old(stream.Rest()), dest, seen) == Finished(slots, seen', stream.Rest(), true)
    ensures ok && !eof ==> stream.bytesLeft < old(stream.bytesLeft)
    ensures ok && !eof ==>
      && DecFields(iter.fields, old(stream.Rest()), dest, seen) == DecFields(iter.fields, stream.Rest(), slots, seen')
      && MessageShort(iter.fields, old(stream.Rest()), dest) == MessageShort(iter.fields, stream.Rest(), slots)
    decreases stream.bytesLeft, 4
  {
    hide DecKey, DecField, SkipField, FindTag, Or32, Shl, Reflects, Typed, FieldShort;
    var fields := iter.fields;
    slots, seen' := dest, seen;
    var wireType, tag;
    ok, wireType, tag, eof := stream.ReadKey();
    if !ok {
      return eof, eof, slots, seen';
    }
    eof := false;
    RowsTagged(fields);
    var found := iter.Find(tag);
    TagFound(fields, tag, found, iter.pos);
    if !found {
      ok := stream.SkipUnknown(wireType);
      return;
    }
    if fields == [] {
      // The terminator row has no storage to decode into.
      return false, false, slots, seen';
    }
    MarkRow(iter, fieldsSeen, seen);
    seen' := seen + {tag};
    FieldNoneShort(fields, dest, iter.pos, wireType, stream.Rest());
    ok, slots := DecodeStaticField(stream, fields, iter.pos, wireType, dest);
  }

  method MarkRow(iter: FieldIterator, fieldsSeen: array<nat>, ghost seen: set<nat>)
    requires iter.Valid() && iter.fields != [] && DistinctTags(iter.fields) && fieldsSeen.Length == 2
    requires Reflects(fieldsSeen[..], iter.fields, seen)
    modifies fieldsSeen
    ensures Reflects(fieldsSeen[..], iter.fields, seen + {iter.fields[iter.pos].tag})
  {
    hide Or32, Shl, Marked;
    var k := iter.requiredIndex;
    if iter.fields[iter.pos].htype.Required? && k < MAX_REQUIRED_FIELDS {
      MarkReflects(fieldsSeen[..], iter.fields, seen, iter.pos);
      ghost var before := fieldsSeen[..];
      fieldsSeen[k / 32] := Or32(fieldsSeen[k / 32], Shl(1, k % 32));
      assert fieldsSeen[..] == before[k / 32 := Or32(before[k / 32], Shl(1, k % 32))];
    } else {
      UnmarkedReflects(fieldsSeen[..], iter.fields, seen, iter.pos);
    }
  }

  /** The final check that every tracked required row was met. */
  method CheckRequired(iter: FieldIterator, fieldsSeen: array<nat>, ghost seen: set<nat>) returns (ok: bool)
    requires iter.Valid() && SchemaOK(iter.fields) && fieldsSeen.Length == 2
    requires Reflects(fieldsSeen[..], iter.fields, seen)
    modifies iter
    ensures ok <==> RequiredSeen(iter.fields, seen)
  {
    hide Reflects, Marked, MarkedUpTo, RequiredSeen;
    RowsTagged(iter.fields);
    var count := CountRequired(iter);
    if count > MAX_REQUIRED_FIELDS {
      count := MAX_REQUIRED_FIELDS;
    }
    MarkedMeansSeen(fieldsSeen[..], iter.fields, seen, count);
    ReflectsWords(fieldsSeen[..], iter.fields, seen, count);
    ok := AllMarked(fieldsSeen, count);
  }

  method DecodeNoinit(stream: Stream, fields: seq<Field>, dest: seq<Slot>) returns (ok: bool, slots: seq<Slot>)
    requires stream.Valid() && SchemaOK(fields) && Typed(fields, dest)
    modifies stream
    ensures stream.Valid() && stream.End() == old(stream.End()) - MessageShort(fields, old(stream.Rest()), dest)
    ensures ok <==> Decoding.DecodeNoinit(fields, old(stream.Rest()), dest).Some?
    ensures ok ==> Decoding.DecodeNoinit(fields, old(stream.Rest()), dest) == Some(Decoded(slots, stream.Rest()))
    decreases stream.bytesLeft, 5
  {
    hide Reflects, Typed, RequiredSeen;
    var iter := new FieldIterator(fields);
    var fieldsSeen: array<nat> := new nat[2](_ => 0);
    ghost var seen, run := {}, DecFields(fields, stream.Rest(), dest, {});
    ghost var short := MessageShort(fields, stream.Rest(), dest);
    slots := dest;
    var eof := false;
    assert fieldsSeen[..] == [0, 0];
    StartsEmpty(fields);
    while !eof && stream.bytesLeft != 0
      invariant stream.Valid() && stream.End() == old(stream.End()) && iter.Valid() && iter.fields == fields
      invariant stream.bytesLeft <= old(stream.bytesLeft)
      invariant Typed(fields, slots) && Reflects(fieldsSeen[..], fields, seen)
      invariant if eof then run == Finished(slots, seen, stream.Rest(), true)
                else run == DecFields(fields, stream.Rest(), slots, seen)
      invariant short == if eof then 0 else MessageShort(fields, stream.Rest(), slots)
      decreases !eof, stream.bytesLeft
    {
      hide DecFields, MessageShort;
      ok, eof, slots, seen := DecodeNext(stream, iter, fieldsSeen, slots, seen);
      if !ok {
        return;
      }
    }
    ok := CheckRequired(iter, fieldsSeen, seen);
  }

  lemma ReflectsWords(words: seq<nat>, fields: seq<Field>, seen: set<nat>, count: nat)
    requires Reflects(words, fields, seen)
    requires count == if RequiredIndex(fields, |fields|) > 64 then 64 else RequiredIndex(fields, |fields|)
    ensures Words(words) && forall r :: count <= r < 64 ==> !Marked(words, r)
  {
    hide Marked;
  }

  method Decode(stream: Stream, fields: seq<Field>) returns (ok: bool, slots: seq<Slot>)
    requires stream.Valid() && SchemaOK(fields)
    modifies stream
    ensures stream.Valid() && stream.End() == old(stream.End()) - DefaultShort(fields, old(stream.Rest()))
    ensures ok <==> Decoding.Decode(fields, old(stream.Rest())).Some?
    ensures ok ==> Decoding.Decode(fields, old(stream.Rest())) == Some(Decoded(slots, stream.Rest()))
  {
    DefaultTyped(fields);
    ok, slots := DecodeNoinit(stream, fields, DefaultMessage(fields));
  }

  /** `pb_decode_delimited`. Whether the message decodes or not, the stream ends where it did, and goes on right after the
      declared length, exactly if the message does not stop short. */
  method DecodeDelimited(stream: Stream, fields: seq<Field>) returns (ok: bool, slots: seq<Slot>)
    requires stream.Valid() && SchemaOK(fields)
    modifies stream
    ensures stream.Valid() && stream.End() == old(stream.End()) - DelimitedShort(fields, old(stream.Rest()))
    ensures DecDelimited(old(stream.Rest())).Parsed? ==> stream.Rest() == DelimitedRest(fields, old(stream.Rest()))
    ensures ok <==> RoundTrip.DecodeDelimited(fields, old(stream.Rest())).Some?
    ensures ok ==> RoundTrip.DecodeDelimited(fields, old(stream.Rest())) == Some(Decoded(slots, stream.Rest()))
  {
    hide DecDelimited, Decoding.Decode, DefaultShort;
    var sub;
    slots := [];
    ok, sub := stream.OpenSubstream();
    if !ok {
      return;
    }
    ghost var body, from, to, end := sub.Rest(), sub.state, sub.End(), sub.End() + stream.bytesLeft;
    DefaultNoneShort(fields, body);
    StopsAt(stream.source, from, to, end, DefaultShort(fields, body));
    ok, slots := Decode(sub, fields);
    stream.CloseSubstream(sub);
  }
}
