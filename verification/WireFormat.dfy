/** The wire format itself: what bytes a varint, a key and a skipped field are, for readers and writers alike. */
module WireFormat {
  import opened Bits
  import opened Varint
  import opened Schema
  import opened Encoding
  import opened Decoding

  // ----- varints -----

  /** The number that seven bits a byte spell, least significant byte first. */
  function Base128(s: seq<Byte>): nat {
    if s == [] then 0 else s[0] % 128 + 128 * Base128(s[1..])
  }

  /** Where a varint ends: the first byte with a clear top bit. */
  function Last(s: seq<Byte>): (k: nat)
    ensures k <= |s| && (forall i :: 0 <= i < k ==> s[i] >= 128) && (k < |s| ==> s[k] < 128)
  {
    if s == [] || s[0] < 128 then 0 else 1 + Last(s[1..])
  }

  /** A varint as a number, and what follows it. */
  function Spelled(s: seq<Byte>): (p: Parsed<nat>) {
    var k := Last(s);
    if k < |s| then Parsed(Base128(s[..k + 1]), s[k + 1..]) else NoParse
  }

  lemma SpelledCons(s: seq<Byte>)
    requires s != []
    ensures s[0] < 128 ==> Spelled(s) == Parsed(s[0], s[1..]) && Last(s) == 0
    ensures s[0] >= 128 ==> Last(s) == 1 + Last(s[1..]) && (Spelled(s).Parsed? <==> Spelled(s[1..]).Parsed?)
    ensures s[0] >= 128 && Spelled(s).Parsed? ==>
      Spelled(s) == Parsed(s[0] % 128 + 128 * Spelled(s[1..]).value, Spelled(s[1..]).rest)
  {
    hide Base128, Last;
    LastCons(s);
    if s[0] < 128 {
      OneByte(s);
    } else if Last(s) < |s| {
      MoreBytes(s, Last(s));
    }
  }

  lemma OneByte(s: seq<Byte>)
    requires s != [] && s[0] < 128
    ensures Base128(s[..1]) == s[0]
  {
    hide Base128;
    assert s[..1] == [s[0]] && [s[0]][1..] == [];
    Base128Cons([s[0]]);
    Base128Cons([]);
  }

  lemma MoreBytes(s: seq<Byte>, k: nat)
    requires 0 < k < |s|
    ensures Base128(s[..k + 1]) == s[0] % 128 + 128 * Base128(s[1..][..k]) && s[k + 1..] == s[1..][k..]
  {
    hide Base128;
    Base128Cons(s[..k + 1]);
    assert s[..k + 1][1..] == s[1..][..k];
  }

  lemma LastCons(s: seq<Byte>)
    requires s != []
    ensures Last(s) == if s[0] < 128 then 0 else 1 + Last(s[1..])
  {
  }

  lemma Base128Cons(s: seq<Byte>)
    ensures Base128(s) == if s == [] then 0 else s[0] % 128 + 128 * Base128(s[1..])
  {
  }

  /** The writer spells the number, with a byte for each seven bits and no empty one at the end. */
  lemma {:induction false} VarintSpells(value: nat, t: seq<Byte>)
    ensures Spelled(EncVarint(value) + t) == Parsed(value, t)
    ensures value > 0 ==> EncVarint(value)[|EncVarint(value)| - 1] != 0
    decreases value
  {
    hide Spelled;
    EncVarintCons(value, t);
    SpelledCons(EncVarint(value) + t);
    if value <= 0x7F {
      assert ([value] + t)[1..] == t;
    } else {
      var tail := EncVarint(value / 128) + t;
      assert ([value % 128 + 128] + tail)[1..] == tail;
      VarintSpells(value / 128, t);
    }
  }

  // ----- the 64-bit reader -----

  /** Adding the digit of byte `j` to what is gathered below it. */
  lemma Digit64(d: nat, j: nat, r: nat)
    requires d < 128 && j <= 9 && r < Pow2(7 * j)
    ensures r < TWO_64 && Pow2(7 * j + 7) == 128 * Pow2(7 * j)
    ensures var x := Or64(r, Shl(d, 7 * j) % TWO_64);
      x == (r + d * Pow2(7 * j)) % TWO_64 && (j < 9 ==> x == r + d * Pow2(7 * j) < Pow2(7 * j + 7))
  {
    hide Pow2, Or;
    Pow2Values();
    Pow2Shift(7 * j);
    var p := Pow2(7 * j);
    if j < 9 {
      Pow2Monotone(7 * j + 7, 63);
      assert Pow2(64) == 2 * Pow2(63) by { Pow2Next(63); }
      DigitBelow(d, p, r);
      OrDisjoint(r, d, 7 * j);
    } else {
      Pow2Next(63);
      TopBit(d, p, r);
      OrDisjoint(r, d % 2, 63);
    }
  }

  lemma DigitBelow(d: nat, p: nat, r: nat)
    requires d < 128 && r < p && 128 * p < TWO_64
    ensures r + d * p < 128 * p && (r + d * p) % TWO_64 == r + d * p && d * p % TWO_64 == d * p
  {
    MulMonotone(d, 127, p);
    var x := d * p;
    assert x + p <= 128 * p;
    SmallMod(x, TWO_64);
    SmallMod(r + x, TWO_64);
  }

  lemma SmallMod(n: nat, d: nat)
    requires n < d
    ensures n % d == n
  {
  }

  lemma TopBit(d: nat, p: nat, r: nat)
    requires d < 128 && 2 * p == TWO_64 && r < p
    ensures d * p % TWO_64 == d % 2 * p && (r + d * p) % TWO_64 == r + d % 2 * p < TWO_64
  {
    var h := d / 2;
    assert d == 2 * h + d % 2;
    assert d * p == h * TWO_64 + d % 2 * p;
    var low := d % 2 * p;
    assert low == 0 || low == p;
    ModUnique(d * p, TWO_64, h, low);
    ModUnique(r + d * p, TWO_64, h, r + low);
  }

  lemma Regroup128(r: nat, d: nat, b: nat, p: nat)
    ensures r + d * p + b * (128 * p) == r + (d + 128 * b) * p
  {
    MulDigits(d, b, p);
  }

  /** What the reader makes of a varint with `j` bytes read before and `r` gathered from them. */
  ghost predicate ReadsOn(s: seq<Byte>, j: nat, r: nat)
    requires r < TWO_64
  {
    var p := Spelled(s);
    DecVarintFrom(s, 7 * j, r)
    == if p.Parsed? && j + Last(s) < 10 then Parsed((r + p.value * Pow2(7 * j)) % TWO_64, p.rest) else NoParse
  }

  lemma ReadsMore(s: seq<Byte>, j: nat, r: nat, x: nat)
    requires s != [] && s[0] >= 128 && j < 9 && r < TWO_64 && x == r + s[0] % 128 * Pow2(7 * j) < TWO_64
    requires Pow2(7 * j + 7) == 128 * Pow2(7 * j) && x == Or64(r, Shl(s[0] % 128, 7 * j) % TWO_64)
    requires ReadsOn(s[1..], j + 1, x)
    ensures ReadsOn(s, j, r)
  {
    hide Spelled, Pow2, Or64, Shl, Last;
    SpelledCons(s);
    assert 7 * j + 7 == 7 * (j + 1);
    if Spelled(s).Parsed? { Regroup128(r, s[0] % 128, Spelled(s[1..]).value, Pow2(7 * j)); }
  }

  /** The last byte of a varint, or the tenth. */
  lemma ReadsLast(s: seq<Byte>, j: nat, r: nat)
    requires s != [] && j <= 9 && r < TWO_64 && (s[0] < 128 || j == 9)
    requires Or64(r, Shl(s[0] % 128, 7 * j) % TWO_64) == (r + s[0] % 128 * Pow2(7 * j)) % TWO_64
    ensures ReadsOn(s, j, r)
  {
    hide Spelled, Pow2, Or64, Shl, Last;
    SpelledCons(s);
    if s[0] >= 128 { TooLong(s[1..], Or64(r, Shl(s[0] % 128, 7 * j) % TWO_64)); }
  }

  lemma TooLong(s: seq<Byte>, r: nat)
    requires r < TWO_64
    ensures DecVarintFrom(s, 70, r) == NoParse
  {
  }

  lemma {:induction false} ReadsFrom(s: seq<Byte>, j: nat, r: nat)
    requires j <= 9 && r < Pow2(7 * j) && r < TWO_64
    ensures ReadsOn(s, j, r)
    decreases |s|
  {
    hide Spelled, Pow2, Or64, Shl, Last, DecVarintFrom;
    if s == [] {
      NothingSpelled();
      NothingRead(7 * j, r);
    } else {
      hide ReadsOn;
      var d := s[0] % 128;
      Digit64(d, j, r);
      var x := Or64(r, Shl(d, 7 * j) % TWO_64);
      if s[0] >= 128 && j < 9 {
        assert 7 * j + 7 == 7 * (j + 1);
        ReadsFrom(s[1..], j + 1, x);
        ReadsMore(s, j, r, x);
      } else {
        ReadsLast(s, j, r);
      }
    }
  }

  lemma NothingRead(bitpos: nat, r: nat)
    requires r < TWO_64
    ensures DecVarintFrom([], bitpos, r) == NoParse
  {
  }

  lemma NothingSpelled()
    ensures Spelled([]).NoParse? && Last([]) == 0
  {
  }

  /** `pb_decode_varint` on any bytes: the number spelled, in 64 bits, if it ends within ten bytes. */
  lemma ReadsSpelled(s: seq<Byte>)
    ensures DecVarint(s)
         == if Spelled(s).Parsed? && Last(s) < 10 then Parsed(Spelled(s).value % TWO_64, Spelled(s).rest) else NoParse
  {
    hide Spelled, DecVarintFrom;
    assert Pow2(7 * 0) == 1;
    ReadsFrom(s, 0, 0);
  }

  // ----- skipping -----

  lemma {:induction false} SkipsSpelled(s: seq<Byte>)
    ensures SkipVarint(s) == if Spelled(s).Parsed? then Parsed((), Spelled(s).rest) else NoParse
    decreases s
  {
    hide Spelled;
    if s == [] {
      NothingSpelled();
    } else {
      SpelledCons(s);
      if s[0] >= 128 { SkipsSpelled(s[1..]); }
    }
  }

  /** What `pb_skip_field` passes over, by the number of the wire type. */
  lemma SkipFieldIs(s: seq<Byte>, wireType: nat)
    ensures wireType == 0 ==>
      SkipField(s, wireType) == if Spelled(s).Parsed? then Parsed((), Spelled(s).rest) else NoParse
    ensures wireType == 1 ==> SkipField(s, wireType) == if |s| >= 8 then Parsed((), s[8..]) else NoParse
    ensures wireType == 2 ==>
      SkipField(s, wireType) == if DecDelimited(s).Parsed? then Parsed((), DecDelimited(s).rest) else NoParse
    ensures wireType == 5 ==> SkipField(s, wireType) == if |s| >= 4 then Parsed((), s[4..]) else NoParse
    ensures wireType !in {0, 1, 2, 5} ==> SkipField(s, wireType) == NoParse
  {
    hide Spelled, SkipVarint, DecVarint32;
    SkipsSpelled(s);
  }

  /** A varint is skipped to where reading it goes on. */
  lemma SkipsAsRead(s: seq<Byte>)
    requires DecVarint(s).Parsed?
    ensures SkipField(s, 0) == Parsed((), DecVarint(s).rest)
  {
    hide Spelled, DecVarint;
    SkipFieldIs(s, 0);
    ReadsSpelled(s);
  }

  // ----- keys -----

  /** The wire type that goes with a field type. */
  function WireNumber(t: LType): nat {
    if t.LFixed64? then 1
    else if t.LFixed32? then 5
    else if t.LVarint? || t.LUvarint? || t.LSvarint? then 0
    else 2
  }

  /** A key is a varint: the tag, and the wire type in its low three bits. */
  lemma KeySpells(f: Field, t: seq<Byte>)
    ensures Spelled(FieldKey(f) + t) == Parsed(8 * f.tag + WireNumber(f.ltype), t)
    ensures Spelled(EncTag(WT_STRING, f.tag) + t) == Parsed(8 * f.tag + 2, t)
  {
    hide Spelled, EncVarint;
    VarintSpells(8 * f.tag + WireNumber(f.ltype), t);
    VarintSpells(8 * f.tag + 2, t);
  }
}
