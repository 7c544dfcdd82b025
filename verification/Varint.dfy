/** The integer codecs of nanopb: base-128 varints, zigzag, and little-endian fixed-width words. */
module Varint {
  import opened Bits

  /** Result of reading a value off the front of a byte string: what is left comes back with it. */
  datatype Parsed<+T> = NoParse | Parsed(value: T, rest: seq<Byte>)

  // ----- encoders -----

  function EncVarint(value: nat): (s: seq<Byte>)
    ensures |s| >= 1
  {
    if value <= 0x7F then [value]
    else [value % 128 + 128] + EncVarint(value / 128)
  }

  /** `width` bytes of `value`, least significant first. */
  function EncFixed(value: nat, width: nat): (s: seq<Byte>)
    ensures |s| == width
  {
    if width == 0 then [] else [value % 256] + EncFixed(value / 256, width - 1)
  }

  /** The zigzag map of signed to unsigned integers. */
  function Zigzag(value: int): nat {
    if value < 0 then -2 * value - 1 else 2 * value
  }

  // ----- decoders -----

  function DecVarint(s: seq<Byte>): (p: Parsed<nat>)
    ensures p.Parsed? ==> |p.rest| < |s| && p.value < TWO_64
  {
    DecVarintFrom(s, 0, 0)
  }

  /** The 64-bit reader with `bitpos` bits already gathered in `result`. */
  function DecVarintFrom(s: seq<Byte>, bitpos: nat, result: nat): (p: Parsed<nat>)
    requires result < TWO_64
    ensures p.Parsed? ==> |p.rest| < |s| && p.value < TWO_64
    decreases |s|
  {
    if bitpos >= 64 || s == [] then NoParse
    else
      var r := Or64(result, Shl(s[0] % 128, bitpos) % TWO_64);
      if s[0] >= 128 then DecVarintFrom(s[1..], bitpos + 7, r)
      else Parsed(r, s[1..])
  }

  /** One byte folded into the 32-bit reader; `None` is the overflow error.
      `bitpos` is an 8-bit counter and wraps. */
  function Step32(byte: Byte, bitpos: nat, result: nat): (r: Option<nat>)
    requires result < TWO_32
    ensures r.Some? ==> r.value < TWO_32
  {
    if bitpos >= 32 then
      var signExtension := if bitpos < 63 then 0xFF else 0x01;
      if byte % 128 != 0 && (result < 0x8000_0000 || byte != signExtension) then None
      else Some(result)
    else
      Some(Or32(result, Shl(byte % 128, bitpos) % TWO_32))
  }

  /** The continuation bytes of the 32-bit reader. */
  function DecVarint32From(s: seq<Byte>, bitpos: nat, result: nat): (p: Parsed<nat>)
    requires result < TWO_32
    ensures p.Parsed? ==> |p.rest| < |s| && p.value < TWO_32
    decreases |s|
  {
    if s == [] then NoParse
    else
      match Step32(s[0], bitpos, result)
      case None => NoParse
      case Some(r) =>
        var next := (bitpos + 7) % 256;
        if s[0] >= 128 then DecVarint32From(s[1..], next, r)
        else if next == 35 && (s[0] / 16) % 8 != 0 then NoParse
        else Parsed(r, s[1..])
  }

  function DecVarint32(s: seq<Byte>): (p: Parsed<nat>)
    ensures p.Parsed? ==> |p.rest| < |s| && p.value < TWO_32
  {
    if s == [] then NoParse
    else if s[0] < 128 then Parsed(s[0], s[1..])
    else DecVarint32From(s[1..], 7, s[0] % 128)
  }

  function DecFixed(s: seq<Byte>, width: nat): (p: Parsed<nat>)
    ensures p.Parsed? ==> |p.rest| + width == |s| && p.rest == s[width..]
    ensures p.Parsed? <==> |s| >= width
  {
    if |s| < width then NoParse else Parsed(WordOf(s[..width]), s[width..])
  }

  /** The word whose little-endian bytes are `s`. */
  function WordOf(s: seq<Byte>): nat {
    if s == [] then 0 else s[0] + 256 * WordOf(s[1..])
  }

  function Unzigzag(value: nat): int {
    if value % 2 == 1 then -(value / 2) - 1 else value / 2
  }

  // ----- reading what was written -----

  lemma {:induction false} VarintLength(value: nat, n: nat)
    requires value < Pow2(7 * n) && n >= 1
    ensures |EncVarint(value)| <= n
  {
    if value > 0x7F {
      Pow2Values();
      Pow2Add(7, 7 * (n - 1));
      VarintLength(value / 128, n - 1);
    }
  }

  /** A 64-bit value is written in one to ten bytes and read back from in front of anything. */
  lemma VarintRoundTrip(value: nat, t: seq<Byte>)
    requires value < TWO_64
    ensures 1 <= |EncVarint(value)| <= 10
    ensures DecVarint(EncVarint(value) + t) == Parsed(value, t)
  {
    assert value < Pow2(70) by {
      Pow2Values();
      Pow2Monotone(64, 70);
    }
    VarintLength(value, 10);
    DecodesFrom(value, 0, 0, t);
  }

  lemma EncVarintCons(value: nat, t: seq<Byte>)
    ensures value <= 0x7F ==> EncVarint(value) + t == [value] + t
    ensures value > 0x7F ==> EncVarint(value) + t == [value % 128 + 128] + (EncVarint(value / 128) + t)
  {
  }

  lemma {:induction false} DecodesFrom(value: nat, bitpos: nat, result: nat, t: seq<Byte>)
    requires result < Pow2(bitpos)
    requires result + Shl(value, bitpos) < TWO_64
    requires value > 0 || bitpos == 0
    ensures DecVarintFrom(EncVarint(value) + t, bitpos, result) == Parsed(result + Shl(value, bitpos), t)
    decreases value
  {
    hide Or, Pow2, Shl, DecVarintFrom, EncVarint;
    var low := value % 128;
    SplitDigit(value, bitpos);
    BelowWidth(value, bitpos, 64);
    OrDisjoint(result, low, bitpos);
    EncVarintCons(value, t);
    if value <= 0x7F {
      ShlZero(bitpos + 7);
      Unfold64(low, t, bitpos, result);
    } else {
      Unfold64(low + 128, EncVarint(value / 128) + t, bitpos, result);
      DecodesFrom(value / 128, bitpos + 7, result + Shl(low, bitpos), t);
    }
  }

  lemma ShlZero(n: nat)
    ensures Shl(0, n) == 0
  {
  }

  /** One byte of the 64-bit reader in front of the rest. */
  lemma Unfold64(byte: Byte, tail: seq<Byte>, bitpos: nat, result: nat)
    requires bitpos < 64 && result < TWO_64
    ensures DecVarintFrom([byte] + tail, bitpos, result) ==
      var r := Or64(result, Shl(byte % 128, bitpos) % TWO_64);
      if byte >= 128 then DecVarintFrom(tail, bitpos + 7, r) else Parsed(r, tail)
  {
    hide Or, Shl;
    assert ([byte] + tail)[1..] == tail;
  }

  /** A nonzero value shifted to bit `bitpos` of an n-bit word starts below bit n. */
  lemma BelowWidth(value: nat, bitpos: nat, n: nat)
    requires n == 32 || n == 64
    requires value > 0 || bitpos == 0
    requires Shl(value, bitpos) < if n == 32 then TWO_32 else TWO_64
    ensures bitpos < n
  {
    Pow2Values();
    if bitpos >= n {
      Pow2Monotone(n, bitpos);
      SplitDigit(value, bitpos);
    }
  }

  /** The 32-bit reader recovers every value below 2^32. */
  lemma Varint32RoundTrip(value: nat, t: seq<Byte>)
    requires value < TWO_32
    ensures DecVarint32(EncVarint(value) + t) == Parsed(value, t)
  {
    if value <= 0x7F {
      assert ([value] + t)[1..] == t;
    } else {
      hide Or, Pow2, Shl, DecVarint32From, DecVarint32, EncVarint;
      FirstDigit32(value, t);
      ShlDigit(value / 128);
      Decodes32From(value / 128, 1, value % 128, t);
    }
  }

  lemma ShlDigit(x: nat)
    ensures Pow2(7 * 1) == 128 && Shl(x, 7 * 1) == 128 * x
  {
    Pow2Values();
  }

  /** `k` bytes have been read before this one. */
  lemma {:induction false} Decodes32From(value: nat, k: nat, result: nat, t: seq<Byte>)
    requires 1 <= k && result < Pow2(7 * k)
    requires value > 0 && result + Shl(value, 7 * k) < TWO_32
    ensures DecVarint32From(EncVarint(value) + t, 7 * k, result) == Parsed(result + Shl(value, 7 * k), t)
    decreases value
  {
    hide Or, Pow2, Shl, DecVarint32From, EncVarint;
    SplitDigit(value, 7 * k);
    BelowWidth(value, 7 * k, 32);
    if value <= 0x7F {
      LastDigit32(value, k, result, t);
    } else {
      ReadDigit32(value, k, result, t);
      assert 7 * k + 7 == 7 * (k + 1);
      Decodes32From(value / 128, k + 1, result + Shl(value % 128, 7 * k), t);
    }
  }

  /** One byte of the 32-bit reader in front of the rest. */
  lemma Unfold32(byte: Byte, tail: seq<Byte>, bitpos: nat, result: nat)
    requires bitpos <= 63 && result < TWO_32
    ensures Step32(byte, bitpos, result).Some? ==>
      DecVarint32From([byte] + tail, bitpos, result) ==
        if byte >= 128 then DecVarint32From(tail, bitpos + 7, Step32(byte, bitpos, result).value)
        else if bitpos == 28 && byte / 16 % 8 != 0 then NoParse
        else Parsed(Step32(byte, bitpos, result).value, tail)
  {
    hide Step32;
    assert ([byte] + tail)[1..] == tail;
  }

  lemma LastDigit32(value: nat, k: nat, result: nat, t: seq<Byte>)
    requires 1 <= k <= 4 && result < Pow2(7 * k) && value <= 0x7F
    requires result + Shl(value, 7 * k) < TWO_32
    ensures DecVarint32From(EncVarint(value) + t, 7 * k, result) == Parsed(result + Shl(value, 7 * k), t)
  {
    hide Or, Pow2, Shl, DecVarint32From;
    if k == 4 { FitsTop(value); }
    OrDisjoint(result, value, 7 * k);
    Unfold32(value, t, 7 * k, result);
  }

  lemma FitsTop(value: nat)
    requires Shl(value, 28) < TWO_32
    ensures value < 16
  {
    Pow2Values();
  }

  /** A continuation byte whose digit fits the word. */
  lemma ReadDigit32(value: nat, k: nat, result: nat, t: seq<Byte>)
    requires value > 0x7F && 1 <= k <= 4 && result < Pow2(7 * k)
    requires result + Shl(value % 128, 7 * k) < TWO_32
    ensures DecVarint32From(EncVarint(value) + t, 7 * k, result)
         == DecVarint32From(EncVarint(value / 128) + t, 7 * k + 7, result + Shl(value % 128, 7 * k))
    ensures result + Shl(value % 128, 7 * k) < Pow2(7 * k + 7)
  {
    hide Or, Pow2, Shl, DecVarint32From, EncVarint;
    EncVarintCons(value, t);
    OrDisjoint(result, value % 128, 7 * k);
    Unfold32(value % 128 + 128, EncVarint(value / 128) + t, 7 * k, result);
    SplitDigit(value, 7 * k);
  }

  /** A 0xFF byte above bit 35 of a negative value is accepted and ignored. */
  lemma SkipSignByte(value: nat, bitpos: nat, result: nat, t: seq<Byte>)
    requires value > 0x7F && value % 128 == 127 && 35 <= bitpos < 63 && 0x8000_0000 <= result < TWO_32
    ensures DecVarint32From(EncVarint(value) + t, bitpos, result)
         == DecVarint32From(EncVarint(value / 128) + t, bitpos + 7, result)
  {
    hide DecVarint32From, EncVarint;
    EncVarintCons(value, t);
    Unfold32(255, EncVarint(value / 128) + t, bitpos, result);
  }

  lemma SkipSignBytes(result: nat, t: seq<Byte>)
    requires 0x8000_0000 <= result < TWO_32
    ensures DecVarint32From(EncVarint(0x1FFF_FFFF) + t, 35, result) == Parsed(result, t)
  {
    hide DecVarint32From;
    SkipSignByte(0x1FFF_FFFF, 35, result, t);
    SkipSignByte(0x3F_FFFF, 42, result, t);
    SkipSignByte(0x7FFF, 49, result, t);
    SkipSignByte(0xFF, 56, result, t);
    Unfold32(1, t, 63, result);
  }

  /** Four base-128 digits and what is above them. */
  lemma FourDigits(v: nat)
    ensures v % 128 + v / 128 % 128 * 128 + v / 128 / 128 % 128 * 0x4000 + v / 128 / 128 / 128 % 128 * 0x20_0000
         == v % 0x1000_0000
    ensures v / 128 / 128 / 128 / 128 == v / 0x1000_0000
  {
  }

  /** A negative 32-bit value is written sign-extended to 64 bits; the 32-bit reader still recovers its low word. */
  lemma SignExtendedRoundTrip(value: int, t: seq<Byte>)
    requires -0x8000_0000 <= value < 0
    ensures DecVarint32(EncVarint(TWO_64 + value) + t) == Parsed(TWO_32 + value, t)
  {
    var low, v := TWO_32 + value, TWO_64 + value;
    var v1 := v / 128;
    var v2 := v1 / 128;
    var v3 := v2 / 128;
    var v4 := v3 / 128;
    FourDigits(v);
    FirstDigit32(v, t);
    FourSteps32(v, t);
    SignWord(low, v);
    TopDigit(v4, low, v % 0x1000_0000, t);
    SkipSignBytes(low, t);
  }

  lemma SignWord(low: nat, v: nat)
    requires 0x8000_0000 <= low < TWO_32 && v == TWO_64 - TWO_32 + low
    ensures v % 0x1000_0000 == low % 0x1000_0000
    ensures v / 0x1000_0000 % 128 == 112 + low / 0x1000_0000 && v / 0x1000_0000 / 128 == 0x1FFF_FFFF
  {
  }

  lemma FirstDigit32(v: nat, t: seq<Byte>)
    requires v > 0x7F
    ensures DecVarint32(EncVarint(v) + t) == DecVarint32From(EncVarint(v / 128) + t, 7, v % 128)
  {
    hide Or, Pow2, EncVarint, DecVarint32From;
    var low, tail := v % 128, EncVarint(v / 128) + t;
    EncVarintCons(v, t);
    assert ([low + 128] + tail)[1..] == tail;
  }

  /** The first four bytes of a long varint gather its low 28 bits. */
  lemma FourSteps32(v: nat, t: seq<Byte>)
    requires v >= 0x1000_0000
    ensures DecVarint32From(EncVarint(v / 128) + t, 7, v % 128)
         == DecVarint32From(EncVarint(v / 128 / 128 / 128 / 128) + t, 28, v % 0x1000_0000)
  {
    hide Or, DecVarint32From, EncVarint;
    Pow2Values();
    FourDigits(v);
    var v1 := v / 128;
    var v2 := v1 / 128;
    var v3 := v2 / 128;
    var r2 := v % 128 + v1 % 128 * 128;
    var r3 := r2 + v2 % 128 * 0x4000;
    assert v3 / 128 >= 1;
    assert 7 * 1 == 7 && 7 * 2 == 14 && 7 * 3 == 21 && 7 * 4 == 28;
    ReadDigit32(v1, 1, v % 128, t);
    ReadDigit32(v2, 2, r2, t);
    ReadDigit32(v3, 3, r3, t);
  }

  /** The fifth byte carries the top four bits of the word under three sign bits. */
  lemma TopDigit(v4: nat, low: nat, r4: nat, t: seq<Byte>)
    requires 0x8000_0000 <= low < TWO_32 && r4 == low % 0x1000_0000
    requires v4 % 128 == 112 + low / 0x1000_0000 && v4 / 128 == 0x1FFF_FFFF
    ensures DecVarint32From(EncVarint(v4) + t, 28, r4) == DecVarint32From(EncVarint(0x1FFF_FFFF) + t, 35, low)
  {
    hide Or, Pow2, Shl, DecVarint32From, EncVarint;
    var h := low / 0x1000_0000;
    ShlTop(h);
    EncVarintCons(v4, t);
    OrDisjoint(r4, h, 28);
    Unfold32(v4 % 128 + 128, EncVarint(0x1FFF_FFFF) + t, 28, r4);
  }

  lemma ShlTop(h: nat)
    requires h < 16
    ensures Pow2(28) == 0x1000_0000
    ensures Shl(h, 28) == h * 0x1000_0000 && Shl(112 + h, 28) % TWO_32 == Shl(h, 28)
  {
    Pow2Values();
  }

  lemma Pow2Shift(n: nat)
    ensures Pow2(n + 7) == 128 * Pow2(n)
  {
    Pow2Values();
    Pow2Add(7, n);
  }

  /** The last byte of a varint is below 128, and it is not zero unless the varint is a lone zero. */
  lemma {:induction false} RejectsHighBits(value: nat, k: nat, result: nat, t: seq<Byte>)
    requires 0 < value && 5 <= k <= 8 && value < Pow2(7 * (9 - k)) && result < TWO_32
    ensures DecVarint32From(EncVarint(value) + t, 7 * k, result) == NoParse
    decreases value
  {
    hide DecVarint32From, Step32, Or32, Pow2;
    EncVarintCons(value, t);
    if value <= 0x7F {
      assert DecVarint32From([value] + t, 7 * k, result) == NoParse by {
        HighByte(value, t, 7 * k, result);
      }
    } else {
      Pow2Values();
      assert k == 8 ==> 7 * (9 - k) == 7;
      Pow2Shift(7 * (8 - k));
      assert 7 * (9 - k) == 7 * (8 - k) + 7;
      UnfoldHigh(value % 128 + 128, EncVarint(value / 128) + t, 7 * k, result);
      RejectsHighBits(value / 128, k + 1, result, t);
    }
  }

  lemma HighByte(value: Byte, tail: seq<Byte>, bitpos: nat, result: nat)
    requires 0 < value < 128 && 35 <= bitpos <= 62 && result < TWO_32
    ensures DecVarint32From([value] + tail, bitpos, result) == NoParse
  {
  }

  lemma UnfoldHigh(byte: Byte, tail: seq<Byte>, bitpos: nat, result: nat)
    requires byte >= 128 && 35 <= bitpos <= 62 && result < TWO_32
    ensures var r := DecVarint32From([byte] + tail, bitpos, result);
      r == NoParse || r == DecVarint32From(tail, bitpos + 7, result)
  {
    assert ([byte] + tail)[1..] == tail;
  }

  /** No number from 2^32 up to 2^63 that `pb_encode_varint` writes is accepted by the 32-bit reader. */
  lemma Varint32Rejects(value: nat, t: seq<Byte>)
    requires TWO_32 <= value < 0x8000_0000_0000_0000
    ensures DecVarint32(EncVarint(value) + t) == NoParse
  {
    hide DecVarint32From, DecVarint32, EncVarint, Pow2;
    var v4 := value / 128 / 128 / 128 / 128;
    FourDigits(value);
    FirstDigit32(value, t);
    FourSteps32(value, t);
    EncVarintCons(v4, t);
    var r := value % 0x1000_0000;
    if v4 <= 0x7F {
      RejectsFifth(v4, t, r);
    } else {
      PassFifth(v4 % 128 + 128, EncVarint(v4 / 128) + t, r);
      var r' := Or32(r, Shl(v4 % 128, 28) % TWO_32);
      Pow2Values();
      assert v4 / 128 < 0x1000_0000 by { assert v4 < 0x8_0000_0000; }
      assert 7 * (9 - 5) == 28;
      RejectsHighBits(v4 / 128, 5, r', t);
    }
  }

  lemma RejectsFifth(byte: Byte, tail: seq<Byte>, result: nat)
    requires 16 <= byte < 128 && result < TWO_32
    ensures DecVarint32From([byte] + tail, 28, result) == NoParse
  {
  }

  lemma PassFifth(byte: Byte, tail: seq<Byte>, result: nat)
    requires 128 <= byte && result < TWO_32
    ensures DecVarint32From([byte] + tail, 28, result)
         == DecVarint32From(tail, 35, Or32(result, Shl(byte % 128, 28) % TWO_32))
  {
    hide Or32, Shl;
    assert ([byte] + tail)[1..] == tail;
  }

  /** Zigzag maps the signed 64-bit integers one to one onto the unsigned ones. */
  lemma ZigzagInverse(value: int, word: nat)
    ensures Unzigzag(Zigzag(value)) == value
    ensures Zigzag(Unzigzag(word)) == word
    ensures -0x8000_0000_0000_0000 <= value < 0x8000_0000_0000_0000 <==> Zigzag(value) < TWO_64
  {
  }

  /** A little-endian word is read back from in front of anything, and any bytes are the word they spell. */
  lemma {:induction false} FixedRoundTrip(value: nat, width: nat, t: seq<Byte>)
    requires value < Pow2(8 * width)
    ensures DecFixed(EncFixed(value, width) + t, width) == Parsed(value, t)
  {
    hide Pow2;
    if width == 0 { Pow2Zero(); }
    var s := EncFixed(value, width) + t;
    assert s[..width] == EncFixed(value, width) && s[width..] == t;
    if width > 0 {
      Pow2Bytes(width - 1);
      FixedRoundTrip(value / 256, width - 1, t);
      var s' := EncFixed(value / 256, width - 1) + t;
      assert s'[..width - 1] == EncFixed(value / 256, width - 1);
      assert EncFixed(value, width)[1..] == EncFixed(value / 256, width - 1);
    }
  }

  lemma Pow2Zero()
    ensures Pow2(0) == 1
  {
  }

  lemma Pow2Bytes(n: nat)
    ensures Pow2(8 * (n + 1)) == 256 * Pow2(8 * n)
  {
    Pow2Values();
    Pow2Add(8, 8 * n);
  }

  lemma {:induction false} FixedUnique(s: seq<Byte>)
    ensures EncFixed(WordOf(s), |s|) == s && WordOf(s) < Pow2(8 * |s|)
  {
    hide Pow2, WordOf, EncFixed;
    WordSplit(s);
    FixedSplit(WordOf(s), |s|);
    if s == [] {
      Pow2Zero();
    } else {
      FixedUnique(s[1..]);
      Pow2Bytes(|s| - 1);
      assert [s[0]] + s[1..] == s;
    }
  }

  lemma WordSplit(s: seq<Byte>)
    ensures if s == [] then WordOf(s) == 0
            else WordOf(s) == s[0] + 256 * WordOf(s[1..]) && WordOf(s) % 256 == s[0] && WordOf(s) / 256 == WordOf(s[1..])
  {
  }

  lemma FixedSplit(value: nat, width: nat)
    ensures EncFixed(value, width) == if width == 0 then [] else [value % 256] + EncFixed(value / 256, width - 1)
  {
  }
}
