/** What the decoder does with particular bytes: numbers, blobs, keys, empty messages; and that it keeps within storage. */
module DecodingLaws {
  import opened Bits
  import opened Varint
  import opened Schema
  import opened Encoding
  import opened Decoding
  import opened WireFormat
  import opened InputStream

  // ----- numbers -----

  predicate IntSize(n: nat) {
    n in {1, 2, 4, 8}
  }

  /** The range of the C type. */
  ghost predicate InRange(f: Field, n: int) {
    var b: int := Pow2(8 * f.dataSize);
    if f.ltype.LUvarint? then 0 <= n < b else -b <= 2 * n < b
  }

  /** The number that the word of a varint stands for: in two's complement of 32 or 64 bits, in zigzag, or itself. */
  ghost predicate Means(f: Field, word: nat, n: int) {
    if f.ltype.LUvarint? then n == word
    else if f.ltype.LSvarint? then word == if n < 0 then -2 * n - 1 else 2 * n
    else
      var b: int := Pow2(if f.dataSize == 8 then 64 else 32);
      -b <= 2 * n < b && (word - n) % b == 0
  }

  lemma Ranges()
    ensures Pow2(8 * 1) == 0x100 && Pow2(8 * 2) == 0x1_0000 && Pow2(8 * 4) == TWO_32 && Pow2(8 * 8) == TWO_64
  {
    hide Pow2;
    Pow2Values();
    Pow2Add(8, 8);
  }

  lemma RangeIs(f: Field, n: int)
    requires IntSize(f.dataSize)
    ensures InRange(f, n) <==> if f.ltype.LUvarint? then UnsignedFits(n, f.dataSize) else SignedFits(n, f.dataSize)
  {
    hide Pow2;
    Ranges();
  }

  lemma CastIs(f: Field, word: nat, n: int)
    requires f.ltype.LVarint? && word < TWO_64 && Means(f, word, n)
    ensures n == if f.dataSize == 8 then Signed64(word) else Signed32(word)
  {
    hide Pow2;
    Pow2Values();
    if f.dataSize != 8 {
      var w := word % TWO_32;
      assert (w - n) % TWO_32 == 0 by { SameResidue(word, w, n); }
    }
  }

  lemma SameResidue(word: nat, w: nat, n: int)
    requires w == word % TWO_32 && (word - n) % TWO_32 == 0
    ensures (w - n) % TWO_32 == 0
  {
    var q, k := word / TWO_32, (word - n) / TWO_32;
    assert w - n == (k - q) * TWO_32;
  }

  /** A number is decoded exactly if its varint is read, its type has one of the four sizes, and it is in range. */
  lemma NumberIs(f: Field, s: seq<Byte>, n: int)
    requires f.ltype.LVarint? || f.ltype.LUvarint? || f.ltype.LSvarint?
    requires DecVarint(s).Parsed? ==> Means(f, DecVarint(s).value, n)
    ensures DecScalar(f, s)
         == if DecVarint(s).Parsed? && IntSize(f.dataSize) && InRange(f, n) then Parsed(Num(n), DecVarint(s).rest)
            else NoParse
  {
    hide DecVarint, InRange, Pow2;
    if IntSize(f.dataSize) { RangeIs(f, n); }
    if DecVarint(s).Parsed? && f.ltype.LVarint? { CastIs(f, DecVarint(s).value, n); }
  }

  /** Fixed-width numbers are their bytes, least significant first. */
  lemma FixedIs(f: Field, s: seq<Byte>)
    requires f.ltype.LFixed32? || f.ltype.LFixed64?
    ensures f.ltype.LFixed32? ==>
      DecScalar(f, s) == if |s| >= 4 then Parsed(Num(Shifted4(s, 0)), s[4..]) else NoParse
    ensures f.ltype.LFixed64? ==>
      DecScalar(f, s) == if |s| >= 8 then Parsed(Num(Shifted4(s, 0) + 0x1_0000_0000 * Shifted4(s, 4)), s[8..]) else NoParse
  {
    hide WordOf;
    if f.ltype.LFixed32? && |s| >= 4 { ShiftedWord(s[..4]); }
    if f.ltype.LFixed64? && |s| >= 8 { ShiftedWord(s[..8]); }
  }

  /** What the encoder writes for a number spells it: a signed one in 64 bits whatever its size. */
  lemma NumberSpells(f: Field, n: int, t: seq<Byte>)
    requires f.ltype.LVarint? || f.ltype.LUvarint? || f.ltype.LSvarint?
    requires ValueTyped(f, Num(n))
    ensures EncScalar(f, n).Some? <==> IntSize(f.dataSize)
    ensures EncScalar(f, n).Some? ==>
      && Spelled(EncScalar(f, n).value + t).Parsed? && Spelled(EncScalar(f, n).value + t).rest == t
      && Means(f.(dataSize := 8), Spelled(EncScalar(f, n).value + t).value, n)
  {
    hide Spelled, EncVarint, Pow2;
    Pow2Values();
    if IntSize(f.dataSize) {
      VarintSpells(if f.ltype.LVarint? then Unsigned64(n) else if f.ltype.LUvarint? then n else Zigzag(n), t);
    }
  }

  // ----- blobs -----

  /** A blob is decoded exactly if it is all there and fits its storage; a fixed-length one may be empty and stands for
      zeros then; a string ends at its first NUL. */
  lemma BlobIs(f: Field, s: seq<Byte>)
    requires FieldOK(f)
    ensures f.ltype.LBytes? ==>
      DecBlob(f, s) == if DecDelimited(s).Parsed? && |DecDelimited(s).value| + 4 <= f.dataSize
                       then Parsed(Blob(DecDelimited(s).value), DecDelimited(s).rest) else NoParse
    ensures f.ltype.LString? ==>
      && (DecBlob(f, s).Parsed? <==> DecDelimited(s).Parsed? && |DecDelimited(s).value| < f.dataSize)
      && (DecBlob(f, s).Parsed? ==>
            var b, whole := DecBlob(f, s).value.bytes, DecDelimited(s).value;
            && DecBlob(f, s).rest == DecDelimited(s).rest
            && b <= whole && 0 !in b && (|b| < |whole| ==> whole[|b|] == 0))
    ensures f.ltype.LFixedLengthBytes? ==>
      DecBlob(f, s) == if DecDelimited(s).NoParse? then NoParse
                       else if |DecDelimited(s).value| == f.dataSize
                       then Parsed(Blob(DecDelimited(s).value), DecDelimited(s).rest)
                       else if DecDelimited(s).value == []
                       then Parsed(Blob(seq(f.dataSize, _ => 0)), DecDelimited(s).rest)
                       else NoParse
  {
    hide DecVarint32, UpToNul;
    var n := DecVarint32(s);
    if f.ltype.LFixedLengthBytes? && n.Parsed? && n.value == 0 {
      assert n.rest[..0] == [] && n.rest[0..] == n.rest;
      assert f.dataSize == 0 ==> ZeroBytes(f.dataSize) == [];
    }
  }

  // ----- keys -----

  /** A zero byte in the place of a key ends the message. */
  lemma ZeroKeyEnds(fields: seq<Field>, slots: seq<Slot>, seen: set<nat>, t: seq<Byte>)
    requires SchemaOK(fields) && Typed(fields, slots)
    ensures DecFields(fields, [0] + t, slots, seen) == Finished(slots, seen, t, true)
  {
    assert ([0] + t)[1..] == t;
  }

  /** Tag 0 with a wire type is a field to be skipped, but not in an empty table. */
  lemma TagZero(fields: seq<Field>, slots: seq<Slot>, seen: set<nat>, wireType: nat, t: seq<Byte>)
    requires SchemaOK(fields) && Typed(fields, slots) && 1 <= wireType < 8
    ensures var p := SkipField(t, wireType);
      DecFields(fields, [wireType] + t, slots, seen)
      == if fields == [] || p.NoParse? then Failed else DecFields(fields, p.rest, slots, seen)
  {
    hide SkipField;
    var s: seq<Byte> := [wireType] + t;
    assert s[1..] == t && DecKey(s) == Key(wireType, 0, t);
    assert forall i :: 0 <= i < |fields| ==> FieldOK(fields[i]);
  }

  /** Except for choosing between a packed array and a single item the decoder does not look at the wire type. */
  lemma WireTypeIgnored(fields: seq<Field>, slots: seq<Slot>, i: nat, w: nat, w': nat, s: seq<Byte>)
    requires SchemaOK(fields) && Typed(fields, slots) && i < |fields|
    requires fields[i].htype.Repeated? && Packable(fields[i].ltype) ==> (w == 2 <==> w' == 2)
    ensures DecField(fields, slots, i, w, s) == DecField(fields, slots, i, w', s)
  {
    hide DecValue, DecPacked, DecDelimited, Store, Current;
  }

  // ----- required fields -----

  lemma {:induction false} RequiredIndexCounts(fields: seq<Field>, i: nat)
    requires i <= |fields|
    ensures RequiredIndex(fields, i) == |set k: nat | k < i && fields[k].htype.Required?|
  {
    var rows := set k: nat | k < i && fields[k].htype.Required?;
    if i == 0 {
      assert rows == {};
    } else {
      RequiredIndexCounts(fields, i - 1);
      var before := set k: nat | k < i - 1 && fields[k].htype.Required?;
      assert rows == before + if fields[i - 1].htype.Required? then {i - 1} else {};
    }
  }

  /** No bytes are a message exactly if no row is required, and then nothing changes. */
  lemma EmptyMessage(fields: seq<Field>, slots: seq<Slot>)
    requires SchemaOK(fields) && Typed(fields, slots)
    ensures DecodeNoinit(fields, [], slots)
         == if exists i :: 0 <= i < |fields| && fields[i].htype.Required? then None else Some(Decoded(slots, []))
  {
    if i: nat :| i < |fields| && fields[i].htype.Required? {
      var first := FirstRequired(fields, i);
      assert !RequiredSeen(fields, {});
    }
  }

  lemma {:induction false} FirstRequired(fields: seq<Field>, i: nat) returns (first: nat)
    requires i < |fields| && fields[i].htype.Required?
    ensures first <= i && fields[first].htype.Required? && RequiredIndex(fields, first) == 0
  {
    if RequiredIndex(fields, i) == 0 {
      first := i;
    } else {
      var k := EarlierRequired(fields, i);
      first := FirstRequired(fields, k);
    }
  }

  lemma {:induction false} EarlierRequired(fields: seq<Field>, i: nat) returns (k: nat)
    requires i <= |fields| && RequiredIndex(fields, i) > 0
    ensures k < i && fields[k].htype.Required?
  {
    if fields[i - 1].htype.Required? { k := i - 1; } else { k := EarlierRequired(fields, i - 1); }
  }

  // ----- storage -----

  /** A value in the storage of its row: bytes behind their length, a string with its NUL. */
  ghost predicate ValueInside(f: Field, v: Value)
    decreases f, 0
  {
    match f.ltype
    case LBytes => v.Blob? && |v.bytes| + 4 <= f.dataSize
    case LString => v.Blob? && |v.bytes| + 1 <= f.dataSize
    case LFixedLengthBytes => v.Blob? && |v.bytes| == f.dataSize
    case LSubmessage(fields) => v.Struct? && Inside(fields, v.slots)
    case _ => true
  }

  ghost predicate SlotInside(f: Field, s: Slot)
    decreases f, 1
  {
    match s
    case Single(v) => ValueInside(f, v)
    case Maybe(o) => o.Some? ==> ValueInside(f, o.value)
    case Many(vs) => |vs| <= f.arraySize && forall k :: 0 <= k < |vs| ==> ValueInside(f, vs[k])
  }

  ghost predicate Inside(fields: seq<Field>, slots: seq<Slot>)
    decreases fields, 2
  {
    |slots| == |fields| && forall i :: 0 <= i < |fields| ==> SlotInside(fields[i], slots[i])
  }

  /** A table whose defaults fit, at every depth. */
  ghost predicate DefaultsInside(fields: seq<Field>)
    decreases fields, 1
  {
    forall i :: 0 <= i < |fields| ==> DefaultInside(fields[i])
  }

  ghost predicate DefaultInside(f: Field)
    decreases f, 0
  {
    if f.ltype.LSubmessage? then DefaultsInside(f.ltype.fields) else ValueInside(f, DefaultValue(f))
  }

  lemma {:induction false} StartsInside(fields: seq<Field>)
    requires DefaultsInside(fields)
    ensures Inside(fields, DefaultMessage(fields))
    decreases fields, 1
  {
    forall i | 0 <= i < |fields| ensures SlotInside(fields[i], DefaultSlot(fields[i])) {
      assert DefaultInside(fields[i]);
      DefaultIsInside(fields[i]);
    }
  }

  lemma {:induction false} DefaultIsInside(f: Field)
    requires DefaultInside(f)
    ensures ValueInside(f, DefaultValue(f))
    decreases f, 0
  {
    if f.ltype.LSubmessage? { StartsInside(f.ltype.fields); }
  }

  lemma {:induction false} PackedInside(f: Field, s: seq<Byte>, vs: seq<Value>)
    requires Packable(f.ltype) && forall k :: 0 <= k < |vs| ==> ValueTyped(f, vs[k])
    requires DecPacked(f, s, vs).Some? && |vs| <= f.arraySize
    ensures |DecPacked(f, s, vs).value| <= f.arraySize
    decreases |s|
  {
    hide DecScalar;
    if s != [] {
      var p := DecScalar(f, s);
      PackedInside(f, p.rest, vs + [p.value]);
    }
  }

  lemma {:induction false} ValueStaysInside(f: Field, cur: Value, s: seq<Byte>)
    requires FieldOK(f) && ValueTyped(f, cur) && DefaultInside(f) && ValueInside(f, cur) && DecValue(f, cur, s).Parsed?
    ensures ValueInside(f, DecValue(f, cur, s).value)
    decreases |s|, 1
  {
    hide DecScalar, DecBlob, DecDelimited, DecFields, RequiredSeen, DefaultMessage;
    if f.ltype.LSubmessage? {
      var sub, fields := DecDelimited(s), f.ltype.fields;
      DefaultTyped(fields);
      StartsInside(fields);
      RunStaysInside(fields, sub.value, if f.htype.Repeated? then DefaultMessage(fields) else cur.slots, {});
    } else if !Packable(f.ltype) {
      BlobIs(f, s);
    }
  }

  lemma {:induction false} FieldStaysInside(fields: seq<Field>, slots: seq<Slot>, i: nat, wireType: nat, s: seq<Byte>)
    requires SchemaOK(fields) && Typed(fields, slots) && i < |fields| && DefaultsInside(fields) && Inside(fields, slots)
    requires DecField(fields, slots, i, wireType, s).Parsed?
    ensures Inside(fields, DecField(fields, slots, i, wireType, s).value)
    decreases |s|, 2
  {
    hide DecValue, DecPacked, DecDelimited, ValueInside, DefaultValue, ValueTyped;
    var f, slot := fields[i], slots[i];
    assert FieldOK(f) && SlotTyped(f, slot) && DefaultInside(f) && SlotInside(f, slot);
    if f.htype.Repeated? && wireType == WT_STRING && Packable(f.ltype) {
      var vs := DecPacked(f, DecDelimited(s).value, slot.vs).value;
      PackedInside(f, DecDelimited(s).value, slot.vs);
      forall k | 0 <= k < |vs| ensures ValueInside(f, vs[k]) { NumbersInside(f, vs[k]); }
    } else {
      DefaultIsInside(f);
      ValueStaysInside(f, Current(f, slot), s);
    }
  }

  lemma NumbersInside(f: Field, v: Value)
    requires Packable(f.ltype)
    ensures ValueInside(f, v)
  {
  }

  /** Whatever the bytes, the decoder writes nothing past the storage of a row, at any depth. */
  lemma {:induction false} RunStaysInside(fields: seq<Field>, s: seq<Byte>, slots: seq<Slot>, seen: set<nat>)
    requires SchemaOK(fields) && Typed(fields, slots) && DefaultsInside(fields) && Inside(fields, slots)
    ensures var r := DecFields(fields, s, slots, seen); r.Finished? ==> Inside(fields, r.slots)
    decreases |s|, 3
  {
    hide DecKey, DecField, SkipField, FindTag, Inside, DefaultsInside;
    if s != [] {
      match DecKey(s)
      case BadKey =>
      case EndOfMessage(_) =>
      case Key(wireType, tag, rest) =>
        match FindTag(fields, tag) {
          case None =>
            var p := SkipField(rest, wireType);
            if p.Parsed? { RunStaysInside(fields, p.rest, slots, seen); }
          case Some(i) =>
            var p := DecField(fields, slots, i, wireType, rest);
            if p.Parsed? {
              FieldStaysInside(fields, slots, i, wireType, rest);
              RunStaysInside(fields, p.rest, p.value, seen + {tag});
            }
        }
    }
  }
}
