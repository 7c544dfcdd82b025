/** Each piece of an encoded message is read back from in front of anything. */
module Pieces {
  import opened Bits
  import opened Varint
  import opened Schema
  import opened Encoding
  import opened Decoding

  // ----- keys, lengths and scalars -----

  lemma KeyRoundTrip(wireType: nat, tag: nat, t: seq<Byte>)
    requires wireType < 8 && 1 <= tag <= MAX_TAG
    ensures DecKey(EncTag(wireType, tag) + t) == Key(wireType, tag, t)
  {
    hide EncVarint, DecVarint32;
    Varint32RoundTrip(8 * tag + wireType, t);
    assert EncTag(wireType, tag) + t != [];
  }

  lemma DelimitedRoundTrip(b: seq<Byte>, t: seq<Byte>)
    requires |b| < TWO_32
    ensures DecDelimited(EncString(b) + t) == Parsed(b, t)
  {
    Varint32RoundTrip(|b|, b + t);
    assert EncString(b) + t == EncVarint(|b|) + (b + t);
    assert (b + t)[..|b|] == b && (b + t)[|b|..] == t;
  }

  /** No message can be this long, and below it the 32-bit reader turns down every length it cannot hold. */
  const LIMIT: nat := 0x8000_0000_0000_0000

  lemma DelimitedRejects(b: seq<Byte>, t: seq<Byte>)
    requires TWO_32 <= |b| < LIMIT
    ensures DecDelimited(EncString(b) + t) == NoParse
  {
    Varint32Rejects(|b|, b + t);
    assert EncString(b) + t == EncVarint(|b|) + (b + t);
  }

  lemma WordRoundTrip(n: nat, width: nat, t: seq<Byte>)
    requires (width == 4 && n < TWO_32) || (width == 8 && n < TWO_64)
    ensures DecWord(EncFixed(n, width) + t, width) == Parsed(Num(n), t)
  {
    Pow2Values();
    FixedRoundTrip(n, width, t);
  }

  lemma SignedCast(n: int, size: nat)
    requires ValidIntSize(size) && SignedFits(n, size)
    ensures 0 <= Unsigned64(n) < TWO_64
    ensures (if size == 8 then Signed64(Unsigned64(n)) else Signed32(Unsigned64(n))) == n
  {
  }

  lemma ScalarRoundTrip(f: Field, n: int, t: seq<Byte>)
    requires Packable(f.ltype) && ValueTyped(f, Num(n)) && EncScalar(f, n).Some?
    ensures DecScalar(f, EncScalar(f, n).value + t) == Parsed(Num(n), t)
  {
    hide EncVarint, DecVarint, EncFixed, DecWord;
    match f.ltype
    case LVarint =>
      SignedCast(n, f.dataSize);
      VarintRoundTrip(Unsigned64(n), t);
    case LUvarint =>
      VarintRoundTrip(n, t);
    case LSvarint =>
      ZigzagInverse(n, 0);
      VarintRoundTrip(Zigzag(n), t);
    case LFixed32 =>
      WordRoundTrip(n, 4, t);
    case LFixed64 =>
      WordRoundTrip(n, 8, t);
  }

  lemma BlobRoundTrip(f: Field, b: seq<Byte>, t: seq<Byte>)
    requires f.ltype.LBytes? || f.ltype.LString? || f.ltype.LFixedLengthBytes?
    requires FieldOK(f) && ValueTyped(f, Blob(b)) && EncValue(f, Blob(b)).Some?
    ensures DecBlob(f, EncValue(f, Blob(b)).value + t) == Parsed(Blob(b), t)
  {
    assert f.dataSize <= SIZE_MAX;
    hide EncVarint, DecVarint32, UpToNul, EncString, FieldOK;
    LengthFirst(b, t);
    assert UpToNul(b) == b || f.ltype.LBytes? || f.ltype.LFixedLengthBytes?;
    assert f.ltype.LFixedLengthBytes? && f.dataSize == 0 ==> b == ZeroBytes(0);
  }

  /** What a reader of a blob finds behind its length. */
  lemma LengthFirst(b: seq<Byte>, t: seq<Byte>)
    requires |b| < TWO_32
    ensures DecVarint32(EncString(b) + t) == Parsed(|b|, b + t)
    ensures (b + t)[..|b|] == b && (b + t)[|b|..] == t && (b == [] ==> b + t == t)
  {
    hide EncVarint, DecVarint32;
    Varint32RoundTrip(|b|, b + t);
    assert EncString(b) + t == EncVarint(|b|) + (b + t);
  }

  /** What `DecFields` does with one field of known tag. */
  lemma FieldStep(fields: seq<Field>, i: nat, wireType: nat, body: seq<Byte>, t: seq<Byte>,
                  slots: seq<Slot>, seen: set<nat>)
    requires SchemaOK(fields) && Typed(fields, slots) && i < |fields| && wireType < 8
    ensures var p := DecField(fields, slots, i, wireType, body + t);
      DecFields(fields, EncTag(wireType, fields[i].tag) + body + t, slots, seen)
      == if p.NoParse? then Failed else DecFields(fields, p.rest, p.value, seen + {fields[i].tag})
  {
    hide DecField;
    var tag := fields[i].tag;
    assert FieldOK(fields[i]);
    assert EncTag(wireType, tag) + body + t == EncTag(wireType, tag) + (body + t);
    KeyRoundTrip(wireType, tag, body + t);
    assert FindTag(fields, tag) == Some(i);
    assert |EncTag(wireType, tag)| >= 1;
  }

  lemma {:induction false} PackedRoundTrip(f: Field, done: seq<Value>, vs: seq<Value>)
    requires Packable(f.ltype) && forall k :: 0 <= k < |done| ==> ValueTyped(f, done[k])
    requires forall k :: 0 <= k < |vs| ==> ValueTyped(f, vs[k])
    requires EncPacked(f, vs).Some?
    ensures vs == [] || |done| + |vs| <= f.arraySize ==> DecPacked(f, EncPacked(f, vs).value, done) == Some(done + vs)
    ensures vs != [] && |done| + |vs| > f.arraySize ==> DecPacked(f, EncPacked(f, vs).value, done) == None
    decreases vs
  {
    if vs == [] {
      assert done + vs == done;
    } else {
      assert ValueTyped(f, vs[0]) && vs[0] == Num(vs[0].n);
      var head, tail := EncScalar(f, vs[0].n).value, EncPacked(f, vs[1..]).value;
      ScalarRoundTrip(f, vs[0].n, tail);
      assert EncPacked(f, vs).value == head + tail && head + tail != [];
      assert done + vs == done + [vs[0]] + vs[1..];
      PackedRoundTrip(f, done + [vs[0]], vs[1..]);
    }
  }

  /** A row writes nothing exactly when it is absent, empty or at its proto3 default. */
  lemma EncSlotCases(f: Field, s: Slot)
    requires SlotTyped(f, s) && EncSlot(f, s).Some?
    ensures EncSlot(f, s).value == [] <==>
      (s == Maybe(None) || s == Many([]) || (Singular(f) && IsDefaultValue(f, s.v)))
    ensures f.htype.Repeated? && s.vs != [] ==>
      |s.vs| <= f.arraySize && (if Packable(f.ltype) then EncPacked(f, s.vs).Some? else EncSlot(f, s) == EncItems(f, s.vs))
  {
    hide EncVarint;
    if f.htype.Repeated? && s.vs != [] {
      assert EncItems(f, s.vs) == Append(EncTagged(f, s.vs[0]), EncItems(f, s.vs[1..]));
    }
  }
}
