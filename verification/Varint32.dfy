/** What the 32-bit varint reader makes of any bytes. */
module Varint32 {
  import opened Bits
  import opened Varint
  import opened WireFormat

  /** One byte of the 32-bit reader. */
  lemma Unfold(s: seq<Byte>, bitpos: nat, r: nat)
    requires r < TWO_32
    ensures DecVarint32From(s, bitpos, r)
         == if s == [] || Step32(s[0], bitpos, r).None? then NoParse
            else
              var x := Step32(s[0], bitpos, r).value;
              if s[0] >= 128 then DecVarint32From(s[1..], (bitpos + 7) % 256, x)
              else if (bitpos + 7) % 256 == 35 && s[0] / 16 % 8 != 0 then NoParse
              else Parsed(x, s[1..])
  {
    hide Step32;
  }

  /** What a number counts for behind `j` bytes. */
  function Behind(n: nat, j: nat): nat {
    n * Pow2(7 * j)
  }

  lemma BehindCons(d: nat, b: nat, j: nat)
    ensures Behind(d, j) + Behind(b, j + 1) == Behind(d + 128 * b, j)
  {
    hide Pow2;
    Pow2Shift(7 * j);
    assert 7 * j + 7 == 7 * (j + 1);
    Regroup128(0, d, b, Pow2(7 * j));
  }

  lemma BehindNone(n: nat)
    ensures Behind(n, 0) == n
  {
    hide Pow2;
    Pow2Zero();
    assert 7 * 0 == 0 && n * 1 == n;
  }

  // ----- numbers below 2^32, padded or not -----

  lemma ZeroDigit(byte: Byte, bitpos: nat, r: nat)
    requires byte % 128 == 0 && r < TWO_32
    ensures Step32(byte, bitpos, r) == Some(r)
  {
    assert Shl(0, bitpos) == 0;
  }

  lemma {:induction false} ReadsZeros(s: seq<Byte>, bitpos: nat, r: nat)
    requires r < TWO_32 && Spelled(s).Parsed? && Spelled(s).value == 0
    ensures DecVarint32From(s, bitpos, r) == Parsed(r, Spelled(s).rest)
    decreases s
  {
    hide Spelled, Step32, DecVarint32From;
    Unfold(s, bitpos, r);
    if s == [] {
      NothingSpelled();
    } else {
      SpelledCons(s);
      ZeroDigit(s[0], bitpos, r);
      if s[0] >= 128 { ReadsZeros(s[1..], (bitpos + 7) % 256, r); }
    }
  }

  /** A digit below bit 32. */
  lemma LowDigit(byte: Byte, j: nat, r: nat)
    requires j <= 4 && r < Pow2(7 * j)
    ensures r < TWO_32
    ensures Step32(byte, 7 * j, r) == Some((r + Behind(byte % 128, j)) % TWO_32)
    ensures j < 4 ==> r + Behind(byte % 128, j) < Pow2(7 * (j + 1)) && r + Behind(byte % 128, j) < TWO_32
  {
    hide Pow2, Or;
    Pow2Values();
    Pow2Shift(7 * j);
    assert 7 * j + 7 == 7 * (j + 1);
    var d, p := byte % 128, Pow2(7 * j);
    Pow2Monotone(7 * j, 28);
    if j < 4 {
      Pow2Monotone(7 * j + 7, 28);
      SmallDigit(d, p, r);
      OrDisjoint(r, d, 7 * j);
    } else {
      TopDigits(d, r);
      OrDisjoint(r, d % 16, 28);
    }
  }

  lemma SmallDigit(d: nat, p: nat, r: nat)
    requires d < 128 && r < p && 128 * p < TWO_32
    ensures r + d * p < 128 * p && (r + d * p) % TWO_32 == r + d * p && d * p % TWO_32 == d * p
  {
    MulMonotone(d, 127, p);
    var x := d * p;
    assert x + p <= 128 * p;
    SmallMod(x, TWO_32);
    SmallMod(r + x, TWO_32);
  }

  lemma TopDigits(d: nat, r: nat)
    requires d < 128 && r < 0x1000_0000
    ensures d * 0x1000_0000 % TWO_32 == d % 16 * 0x1000_0000
    ensures (r + d * 0x1000_0000) % TWO_32 == r + d % 16 * 0x1000_0000
  {
  }

  /** Digits from bit 35 on do not reach into 32 bits. */
  lemma NoReach(r: nat, b: nat)
    ensures (r + Behind(b, 5)) % TWO_32 == r % TWO_32 && (b > 0 ==> Behind(b, 5) >= TWO_32)
  {
    hide Pow2;
    Pow2Values();
    Pow2Shift(28);
    assert 7 * 5 == 35;
    var q := 8 * b;
    assert Behind(b, 5) == q * TWO_32;
    ModUnique(r + q * TWO_32, TWO_32, r / TWO_32 + q, r % TWO_32);
  }

  /** A byte that ends the number, if it fits. */
  lemma ReadsLast32(s: seq<Byte>, j: nat, r: nat)
    requires s != [] && s[0] < 128 && j <= 4 && r < Pow2(7 * j) && r < TWO_32
    requires r + Behind(s[0] % 128, j) < TWO_32
    ensures DecVarint32From(s, 7 * j, r) == Parsed(r + Behind(s[0] % 128, j), s[1..])
  {
    hide Step32, DecVarint32From, Pow2, Behind;
    Unfold(s, 7 * j, r);
    LowDigit(s[0], j, r);
    SmallMod(r + Behind(s[0] % 128, j), TWO_32);
    if j == 4 { LastDigit(s[0] % 128); }
  }

  lemma LastDigit(d: nat)
    requires Behind(d, 4) < TWO_32
    ensures d < 16
  {
    hide Pow2;
    Pow2Values();
    assert 7 * 4 == 28;
  }

  /** A byte with more to come. */
  lemma ReadsDigit32(s: seq<Byte>, j: nat, r: nat)
    requires s != [] && s[0] >= 128 && j <= 4 && r < Pow2(7 * j) && r < TWO_32
    ensures var x := (r + Behind(s[0] % 128, j)) % TWO_32;
      && DecVarint32From(s, 7 * j, r) == DecVarint32From(s[1..], 7 * (j + 1), x)
      && (j < 4 ==> x == r + Behind(s[0] % 128, j) < Pow2(7 * (j + 1)))
  {
    hide Step32, DecVarint32From, Pow2, Behind;
    Unfold(s, 7 * j, r);
    LowDigit(s[0], j, r);
    if j < 4 { SmallMod(r + Behind(s[0] % 128, j), TWO_32); }
    assert 7 * j + 7 == 7 * (j + 1);
  }

  lemma {:induction false} ReadsSmall(s: seq<Byte>, j: nat, r: nat)
    requires j <= 4 && r < Pow2(7 * j) && r < TWO_32 && Spelled(s).Parsed?
    requires r + Behind(Spelled(s).value, j) < TWO_32
    ensures DecVarint32From(s, 7 * j, r) == Parsed(r + Behind(Spelled(s).value, j), Spelled(s).rest)
    decreases 4 - j
  {
    hide Spelled, DecVarint32From, Pow2, Last, Behind;
    if s == [] {
      NothingSpelled();
    } else {
      SpelledCons(s);
      if s[0] < 128 {
        ReadsLast32(s, j, r);
      } else {
        var d, b := s[0] % 128, Spelled(s[1..]).value;
        BehindCons(d, b, j);
        SmallMod(r + Behind(d, j), TWO_32);
        ReadsDigit32(s, j, r);
        if j < 4 {
          ReadsSmall(s[1..], j + 1, r + Behind(d, j));
        } else {
          NoReach(0, b);
          BehindZero();
          ReadsZeros(s[1..], 35, r + Behind(d, j));
        }
      }
    }
  }

  lemma BehindZero()
    ensures Behind(0, 5) == 0
  {
  }

  // ----- any numbers -----

  lemma HighDigit(byte: Byte, bitpos: nat, r: nat)
    requires bitpos >= 32 && r < TWO_32 && Step32(byte, bitpos, r).Some?
    ensures Step32(byte, bitpos, r) == Some(r)
  {
  }

  /** From bit 35 on bytes are checked and change nothing, as long as the bit position does not wrap. */
  lemma {:induction false} ReadsHigh(s: seq<Byte>, j: nat, r: nat)
    requires 5 <= j && j + Last(s) <= 36 && r < TWO_32 && DecVarint32From(s, 7 * j, r).Parsed?
    ensures Spelled(s).Parsed? && DecVarint32From(s, 7 * j, r) == Parsed(r, Spelled(s).rest)
    decreases s
  {
    hide Spelled, Step32, DecVarint32From, Last;
    Unfold(s, 7 * j, r);
    SpelledCons(s);
    HighDigit(s[0], 7 * j, r);
    if s[0] >= 128 {
      assert 7 * j + 7 == 7 * (j + 1) < 256;
      ReadsHigh(s[1..], j + 1, r);
    }
  }

  lemma {:induction false} ReadsLow(s: seq<Byte>, j: nat, r: nat)
    requires j <= 4 && j + Last(s) <= 36 && r < Pow2(7 * j) && r < TWO_32 && DecVarint32From(s, 7 * j, r).Parsed?
    ensures Spelled(s).Parsed?
    ensures DecVarint32From(s, 7 * j, r) == Parsed((r + Behind(Spelled(s).value, j)) % TWO_32, Spelled(s).rest)
    decreases 4 - j
  {
    hide Spelled, Step32, DecVarint32From, Last, Pow2, Behind;
    Unfold(s, 7 * j, r);
    SpelledCons(s);
    var d := s[0] % 128;
    if s[0] < 128 {
      LowDigit(s[0], j, r);
    } else {
      var x := (r + Behind(d, j)) % TWO_32;
      ReadsDigit32(s, j, r);
      if j < 4 { ReadsLow(s[1..], j + 1, x); } else { ReadsHigh(s[1..], 5, x); }
      var b := Spelled(s[1..]).value;
      BehindCons(d, b, j);
      if j == 4 { NoReach(r + Behind(d, j), b); }
    }
  }

  lemma StartsLow(s: seq<Byte>)
    ensures Pow2(7 * 0) == 1 && DecVarint32(s) == DecVarint32From(s, 7 * 0, 0)
  {
    hide DecVarint32From, Step32, Pow2, Behind;
    Pow2Zero();
    Unfold(s, 0, 0);
    if s != [] {
      LowDigit(s[0], 0, 0);
      BehindNone(s[0] % 128);
      SmallMod(s[0] % 128, TWO_32);
    }
  }

  /** `pb_decode_varint32` on any bytes: a number below 2^32 is read however it is padded; what is accepted of a varint of
      up to 37 bytes, where the 8-bit position has not wrapped, is the low word of the number. See `WrappedPosition` for
      one of 38. */
  lemma Reads32Spelled(s: seq<Byte>)
    ensures Spelled(s).Parsed? && Spelled(s).value < TWO_32 ==> DecVarint32(s) == Spelled(s)
    ensures DecVarint32(s).Parsed? && Last(s) <= 36 ==>
      Spelled(s).Parsed? && DecVarint32(s) == Parsed(Spelled(s).value % TWO_32, Spelled(s).rest)
  {
    hide Spelled, Last, DecVarint32From, DecVarint32, Pow2, Behind;
    StartsLow(s);
    if Spelled(s).Parsed? { BehindNone(Spelled(s).value); }
    if Spelled(s).Parsed? && Spelled(s).value < TWO_32 { ReadsSmall(s, 0, 0); }
    if DecVarint32(s).Parsed? && Last(s) <= 36 { ReadsLow(s, 0, 0); }
  }

  // ----- where the position wraps -----

  function Padding(n: nat): seq<Byte> {
    if n == 0 then [] else [0x80] + Padding(n - 1)
  }

  lemma {:induction false} PaddingMoves(n: nat, t: seq<Byte>, bitpos: nat, r: nat)
    requires r < TWO_32 && bitpos < 256
    ensures DecVarint32From(Padding(n) + t, bitpos, r) == DecVarint32From(t, (bitpos + 7 * n) % 256, r)
  {
    hide Step32, DecVarint32From, Last;
    var s := Padding(n) + t;
    if n == 0 {
      assert s == t;
    } else {
      assert s[0] == 0x80 && s[1..] == Padding(n - 1) + t;
      Unfold(s, bitpos, r);
      ZeroDigit(0x80, bitpos, r);
      PaddingMoves(n - 1, t, (bitpos + 7) % 256, r);
      WrapTwice(bitpos + 7, 7 * (n - 1));
    }
  }

  lemma WrapTwice(a: nat, b: nat)
    ensures (a % 256 + b) % 256 == (a + b) % 256
  {
  }

  /** A byte more, and the digit comes in again at the bottom: 37 empty bytes and a 1 are read as 8. */
  lemma WrappedPosition()
    ensures Last(Padding(37) + [1]) == 37 && DecVarint32(Padding(37) + [1]) == Parsed(8, [])
  {
    hide DecVarint32From, Step32;
    var t: seq<Byte> := [1];
    StartsLow(Padding(37) + t);
    PaddingMoves(37, t, 0, 0);
    Unfold(t, 3, 0);
    assert Step32(1, 3, 0) == Some(8) by { EightIsStep(); }
    LastOfPadding(37, t);
  }

  lemma EightIsStep()
    ensures Step32(1, 3, 0) == Some(8)
  {
    assert Pow2(3) == 2 * (2 * (2 * Pow2(0)));
  }

  lemma {:induction false} LastOfPadding(n: nat, t: seq<Byte>)
    requires t != [] && t[0] < 128
    ensures Last(Padding(n) + t) == n
  {
    var s := Padding(n) + t;
    if n > 0 {
      assert s[0] == 0x80 && s[1..] == Padding(n - 1) + t;
      LastOfPadding(n - 1, t);
    }
  }
}
