/** Decoding a concatenation is decoding one part after the other, and unknown fields are transparent. */
module Concat {
  import opened Bits
  import opened Varint
  import opened Schema
  import opened Decoding

  // ----- a reader that succeeds is not disturbed by what follows -----

  ghost predicate Extends<T>(p: Parsed<T>, q: Parsed<T>, t: seq<Byte>) {
    p.Parsed? ==> q == Parsed(p.value, p.rest + t)
  }

  lemma {:induction false} VarintExtends(s: seq<Byte>, bitpos: nat, result: nat, t: seq<Byte>)
    requires result < TWO_64
    ensures Extends(DecVarintFrom(s, bitpos, result), DecVarintFrom(s + t, bitpos, result), t)
    decreases |s|
  {
    hide Or64, Shl;
    if bitpos < 64 && s != [] {
      assert (s + t)[1..] == s[1..] + t;
      if s[0] >= 128 {
        VarintExtends(s[1..], bitpos + 7, Or64(result, Shl(s[0] % 128, bitpos) % TWO_64), t);
      }
    }
  }

  lemma {:induction false} Varint32FromExtends(s: seq<Byte>, bitpos: nat, result: nat, t: seq<Byte>)
    requires result < TWO_32
    ensures Extends(DecVarint32From(s, bitpos, result), DecVarint32From(s + t, bitpos, result), t)
    decreases |s|
  {
    hide Step32;
    if s != [] {
      assert (s + t)[1..] == s[1..] + t;
      var r := Step32(s[0], bitpos, result);
      if r.Some? && s[0] >= 128 {
        Varint32FromExtends(s[1..], (bitpos + 7) % 256, r.value, t);
      }
    }
  }

  lemma Varint32Extends(s: seq<Byte>, t: seq<Byte>)
    ensures Extends(DecVarint32(s), DecVarint32(s + t), t)
  {
    hide DecVarint32From;
    if s != [] {
      assert (s + t)[1..] == s[1..] + t;
      if s[0] >= 128 {
        Varint32FromExtends(s[1..], 7, s[0] % 128, t);
      }
    }
  }

  lemma TakeExtends(s: seq<Byte>, n: nat, t: seq<Byte>)
    requires n <= |s|
    ensures (s + t)[..n] == s[..n] && (s + t)[n..] == s[n..] + t
  {
  }

  lemma ScalarExtends(f: Field, s: seq<Byte>, t: seq<Byte>)
    requires Packable(f.ltype)
    ensures Extends(DecScalar(f, s), DecScalar(f, s + t), t)
  {
    hide DecVarintFrom;
    VarintExtends(s, 0, 0, t);
    if |s| >= 4 { TakeExtends(s, 4, t); }
    if |s| >= 8 { TakeExtends(s, 8, t); }
  }

  lemma DelimitedExtends(s: seq<Byte>, t: seq<Byte>)
    ensures Extends(DecDelimited(s), DecDelimited(s + t), t)
  {
    hide DecVarint32;
    Varint32Extends(s, t);
    var n := DecVarint32(s);
    if n.Parsed? && n.value <= |n.rest| { TakeExtends(n.rest, n.value, t); }
  }

  lemma BlobExtends(f: Field, s: seq<Byte>, t: seq<Byte>)
    requires f.ltype.LBytes? || f.ltype.LString? || f.ltype.LFixedLengthBytes?
    ensures Extends(DecBlob(f, s), DecBlob(f, s + t), t)
  {
    hide DecVarint32, UpToNul;
    Varint32Extends(s, t);
    var n := DecVarint32(s);
    if n.Parsed? && n.value <= |n.rest| { TakeExtends(n.rest, n.value, t); }
  }

  lemma {:induction false} SkipVarintExtends(s: seq<Byte>, t: seq<Byte>)
    ensures Extends(SkipVarint(s), SkipVarint(s + t), t)
  {
    if s != [] {
      assert (s + t)[1..] == s[1..] + t;
      SkipVarintExtends(s[1..], t);
    }
  }

  lemma SkipExtends(s: seq<Byte>, n: nat, t: seq<Byte>)
    ensures Extends(Skip(s, n), Skip(s + t, n), t)
  {
    if n <= |s| { TakeExtends(s, n, t); }
  }

  lemma SkipFieldExtends(s: seq<Byte>, wireType: nat, t: seq<Byte>)
    ensures Extends(SkipField(s, wireType), SkipField(s + t, wireType), t)
  {
    hide DecVarint32, Skip;
    SkipVarintExtends(s, t);
    Varint32Extends(s, t);
    SkipExtends(s, 8, t);
    SkipExtends(s, 4, t);
    var n := DecVarint32(s);
    if n.Parsed? { SkipExtends(n.rest, n.value, t); }
  }

  lemma KeyExtends(s: seq<Byte>, t: seq<Byte>)
    ensures var k := DecKey(s);
      k.Key? ==> DecKey(s + t) == Key(k.wireType, k.tag, k.rest + t)
  {
    hide DecVarint32;
    Varint32Extends(s, t);
  }

  lemma ValueExtends(f: Field, cur: Value, s: seq<Byte>, t: seq<Byte>)
    requires FieldOK(f) && ValueTyped(f, cur)
    ensures Extends(DecValue(f, cur, s), DecValue(f, cur, s + t), t)
  {
    hide DecScalar, DecBlob, DecDelimited, DecodeNoinit;
    if Packable(f.ltype) {
      ScalarExtends(f, s, t);
    } else if !f.ltype.LSubmessage? {
      BlobExtends(f, s, t);
    } else {
      DelimitedExtends(s, t);
    }
  }

  lemma FieldExtends(fields: seq<Field>, slots: seq<Slot>, i: nat, wireType: nat, s: seq<Byte>, t: seq<Byte>)
    requires SchemaOK(fields) && Typed(fields, slots) && i < |fields|
    ensures Extends(DecField(fields, slots, i, wireType, s), DecField(fields, slots, i, wireType, s + t), t)
  {
    hide DecValue, DecDelimited, DecPacked, Store;
    assert FieldOK(fields[i]) && SlotTyped(fields[i], slots[i]);
    DelimitedExtends(s, t);
    ValueExtends(fields[i], Current(fields[i], slots[i]), s, t);
  }

  // ----- runs -----

  /** A run that reaches the end of `s` goes on with whatever follows. */
  lemma {:induction false} RunExtends(fields: seq<Field>, s: seq<Byte>, slots: seq<Slot>, seen: set<nat>, t: seq<Byte>)
    requires SchemaOK(fields) && Typed(fields, slots)
    ensures var r := DecFields(fields, s, slots, seen);
      r.Finished? && !r.zeroKey ==> DecFields(fields, s + t, slots, seen) == DecFields(fields, t, r.slots, r.seen)
    decreases |s|
  {
    if s == [] {
      assert s + t == t;
    } else {
      hide DecField, SkipField, FindTag, DecKey;
      var k := DecKey(s);
      if k.Key? {
        KeyExtends(s, t);
        var i := FindTag(fields, k.tag);
        if i.None? {
          SkipFieldExtends(k.rest, k.wireType, t);
          var p := SkipField(k.rest, k.wireType);
          if p.Parsed? { RunExtends(fields, p.rest, slots, seen, t); }
        } else {
          FieldExtends(fields, slots, i.value, k.wireType, k.rest, t);
          var p := DecField(fields, slots, i.value, k.wireType, k.rest);
          if p.Parsed? { RunExtends(fields, p.rest, p.value, seen + {k.tag}, t); }
        }
      }
    }
  }

  function Shift(r: Run, seen: set<nat>): Run {
    if r.Finished? then r.(seen := seen + r.seen) else Failed
  }

  lemma ShiftTwice(r: Run, seen: set<nat>, tag: nat)
    ensures Shift(Shift(r, {} + {tag}), seen) == Shift(r, seen + {tag})
  {
    if r.Finished? {
      assert seen + ({} + {tag} + r.seen) == seen + {tag} + r.seen;
    }
  }

  /** The tags already met do not influence a run. */
  lemma {:induction false} SeenIsPassive(fields: seq<Field>, s: seq<Byte>, slots: seq<Slot>, seen: set<nat>)
    requires SchemaOK(fields) && Typed(fields, slots)
    ensures DecFields(fields, s, slots, seen) == Shift(DecFields(fields, s, slots, {}), seen)
    decreases |s|
  {
    var k := DecKey(s);
    if s == [] || !k.Key? {
      assert seen + {} == seen;
    } else {
      hide DecField, SkipField, FindTag, DecKey, Shift;
      var i := FindTag(fields, k.tag);
      if i.None? {
        var p := SkipField(k.rest, k.wireType);
        if p.Parsed? {
          SeenIsPassive(fields, p.rest, slots, seen);
        } else {
          ShiftFailed(seen);
        }
      } else {
        var p := DecField(fields, slots, i.value, k.wireType, k.rest);
        if p.Parsed? {
          SeenIsPassive(fields, p.rest, p.value, seen + {k.tag});
          SeenIsPassive(fields, p.rest, p.value, {} + {k.tag});
          ShiftTwice(DecFields(fields, p.rest, p.value, {}), seen, k.tag);
        } else {
          ShiftFailed(seen);
        }
      }
    }
    ShiftFailed(seen);
  }

  lemma ShiftFailed(seen: set<nat>)
    ensures Shift(Failed, seen) == Failed
  {
  }

  // ----- messages -----

  /** Decoding one message and then another over it, in two calls, agrees with one call on the concatenation. */
  lemma SequentialIsConcatenated(fields: seq<Field>, s: seq<Byte>, t: seq<Byte>, slots: seq<Slot>)
    requires SchemaOK(fields) && Typed(fields, slots)
    requires var r := DecFields(fields, s, slots, {}); r.Finished? && !r.zeroKey && RequiredSeen(fields, r.seen)
    ensures var first := DecodeNoinit(fields, s, slots);
      && first.Some? && first.value.rest == []
      && (var second := DecodeNoinit(fields, t, first.value.slots);
          second.Some? ==> DecodeNoinit(fields, s + t, slots) == second)
  {
    var r := DecFields(fields, s, slots, {});
    RunExtends(fields, s, slots, {}, t);
    SeenIsPassive(fields, t, r.slots, r.seen);
  }

  /** A complete field: a key and as many bytes as its wire type calls for. */
  ghost predicate CompleteField(field: seq<Byte>, tag: nat) {
    var k := DecKey(field);
    k.Key? && k.tag == tag && SkipField(k.rest, k.wireType) == Parsed((), [])
  }

  /** A complete field with an unknown tag, wherever the decoder comes to it, might as well not be there. */
  lemma UnknownFieldTransparent(fields: seq<Field>, slots: seq<Slot>, s: seq<Byte>, field: seq<Byte>, tag: nat,
      t: seq<Byte>)
    requires SchemaOK(fields) && Typed(fields, slots)
    requires var r := DecFields(fields, s, slots, {}); r.Finished? && !r.zeroKey
    requires CompleteField(field, tag) && tag >= 1 && FindTag(fields, tag) == None
    ensures DecodeNoinit(fields, s + field + t, slots) == DecodeNoinit(fields, s + t, slots)
  {
    hide DecKey, SkipField, FindTag;
    var r := DecFields(fields, s, slots, {});
    RunExtends(fields, s, slots, {}, field + t);
    RunExtends(fields, s, slots, {}, t);
    assert s + field + t == s + (field + t);
    var k := DecKey(field);
    KeyExtends(field, t);
    SkipFieldExtends(k.rest, k.wireType, t);
    assert [] + t == t;
    KeyNeedsBytes(field, t);
  }

  lemma KeyNeedsBytes(s: seq<Byte>, t: seq<Byte>)
    requires DecKey(s).Key?
    ensures s + t != []
  {
  }
}
