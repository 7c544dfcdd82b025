/** The memory input stream of the decoder and its low-level readers. */
module InputStream {
  import opened Bits
  import opened Varint
  import opened Encoding
  import opened Decoding

  lemma WordStep(b: seq<Byte>, k: nat)
    requires k < |b|
    ensures WordOf(b[k..]) == b[k] + 256 * WordOf(b[k + 1..])
  {
    assert b[k..][1..] == b[k + 1..];
  }

  /** The word of four bytes, shifted together. */
  function Shifted4(b: seq<Byte>, at: nat): nat
    requires at + 4 <= |b|
  {
    b[at] + (b[at + 1] as int) * 0x100 + (b[at + 2] as int) * 0x1_0000 + (b[at + 3] as int) * 0x100_0000
  }

  lemma ShiftedWord(b: seq<Byte>)
    requires |b| == 4 || |b| == 8
    ensures WordOf(b) == if |b| == 4 then Shifted4(b, 0) else Shifted4(b, 0) + 0x1_0000_0000 * Shifted4(b, 4)
  {
    hide WordOf;
    assert b[0..] == b && b[|b|..] == [];
    WordStep(b, 0);
    WordStep(b, 1);
    WordStep(b, 2);
    WordStep(b, 3);
    if |b| == 8 {
      WordStep(b, 4);
      WordStep(b, 5);
      WordStep(b, 6);
      WordStep(b, 7);
    }
    WordNil();
  }

  lemma WordNil()
    ensures WordOf([]) == 0
  {
  }

  class Stream {
    const source: seq<Byte>
    var state: nat
    var bytesLeft: nat

    ghost predicate Valid()
      reads this
    {
      state + bytesLeft <= |source|
    }

    /** The bytes still to be read. */
    ghost function Rest(): (s: seq<Byte>)
      requires Valid()
      reads this
      ensures |s| == bytesLeft
    {
      source[state..state + bytesLeft]
    }

    /** Reading moves `state` up to this position and never past it. */
    ghost function End(): nat
      reads this
    {
      state + bytesLeft
    }

    constructor FromBuffer(buf: seq<Byte>)
      ensures Valid() && Rest() == buf && source == buf
    {
      source := buf;
      state := 0;
      bytesLeft := |buf|;
    }

    constructor Copy(stream: Stream)
      requires stream.Valid()
      ensures Valid() && source == stream.source && state == stream.state && bytesLeft == stream.bytesLeft
    {
      source := stream.source;
      state := stream.state;
      bytesLeft := stream.bytesLeft;
    }

    method Read(count: nat) returns (ok: bool, buf: seq<Byte>)
      requires Valid()
      modifies this
      ensures Valid() && End() == old(End())
      ensures ok <==> count <= |old(Rest())|
      ensures ok ==> buf == old(Rest())[..count] && Rest() == old(Rest())[count..]
      ensures !ok ==> Rest() == old(Rest())
    {
      if bytesLeft < count {
        return false, [];
      }
      buf := source[state..state + count];
      state := state + count;
      bytesLeft := bytesLeft - count;
      ok := true;
    }

    method ReadByte() returns (ok: bool, byte: Byte)
      requires Valid()
      modifies this
      ensures Valid() && End() == old(End())
      ensures ok <==> old(Rest()) != []
      ensures ok ==> byte == old(Rest())[0] && Rest() == old(Rest())[1..]
      ensures !ok ==> Rest() == old(Rest())
    {
      if bytesLeft == 0 {
        return false, 0;
      }
      byte := source[state];
      state := state + 1;
      bytesLeft := bytesLeft - 1;
      ok := true;
    }

    method ReadVarint32() returns (ok: bool, dest: nat)
      requires Valid()
      modifies this
      ensures Valid() && End() == old(End())
      ensures ok <==> DecVarint32(old(Rest())).Parsed?
      ensures ok ==> DecVarint32(old(Rest())) == Parsed(dest, Rest())
    {
      hide Or32, Shl, Pow2, Or;
      var s0 := Rest();
      var byte: Byte;
      ok, byte := ReadByte();
      if !ok {
        return false, 0;
      }
      var result: nat := byte % 128;
      if byte >= 128 {
        var bitpos: nat := 7;
        while byte >= 128
          invariant Valid() && End() == old(End())
          invariant result < TWO_32
          invariant byte >= 128 ==> DecVarint32(s0) == DecVarint32From(Rest(), bitpos, result)
          invariant byte < 128 ==>
            DecVarint32(s0) == if bitpos == 35 && byte / 16 % 8 != 0 then NoParse else Parsed(result, Rest())
          decreases bytesLeft, byte
        {
          ok, byte := ReadByte();
          if !ok {
            return false, 0;
          }
          if bitpos >= 32 {
            var signExtension := if bitpos < 63 then 0xFF else 0x01;
            if byte % 128 != 0 && (result < 0x8000_0000 || byte != signExtension) {
              return false, 0;
            }
          } else {
            result := Or32(result, Shl(byte % 128, bitpos) % TWO_32);
          }
          bitpos := (bitpos + 7) % 256;
        }
        if bitpos == 35 && byte / 16 % 8 != 0 {
          return false, 0;
        }
      }
      dest := result;
      ok := true;
    }

    method ReadVarint() returns (ok: bool, dest: nat)
      requires Valid()
      modifies this
      ensures Valid() && End() == old(End())
      ensures ok <==> DecVarint(old(Rest())).Parsed?
      ensures ok ==> DecVarint(old(Rest())) == Parsed(dest, Rest())
      ensures !ok ==> bytesLeft == if old(bytesLeft) > 10 then old(bytesLeft) - 10 else 0
    {
      hide Or64, Shl, Pow2, Or;
      var byte: Byte := 0;
      var bitpos: nat, result: nat, again := 0, 0, true;
      while again
        invariant Valid() && End() == old(End()) && bitpos == 7 * (old(bytesLeft) - bytesLeft)
        invariant again ==> bitpos <= 70
        invariant result < TWO_64
        invariant DecVarint(old(Rest())) == if again then DecVarintFrom(Rest(), bitpos, result) else Parsed(result, Rest())
        decreases again, bytesLeft
      {
        if bitpos >= 64 {
          return false, 0;
        }
        ok, byte := ReadByte();
        if !ok {
          return false, 0;
        }
        result := Or64(result, Shl(byte % 128, bitpos) % TWO_64);
        bitpos := bitpos + 7;
        again := byte >= 128;
      }
      dest := result;
      ok := true;
    }

    /** The four bytes take up separate bits of the word, so adding them is or-ing them. */
    method ReadFixed32() returns (ok: bool, dest: nat)
      requires Valid()
      modifies this
      ensures Valid() && End() == old(End())
      ensures ok <==> DecFixed(old(Rest()), 4).Parsed?
      ensures ok ==> DecFixed(old(Rest()), 4) == Parsed(dest, Rest())
      ensures !ok ==> Rest() == old(Rest())
    {
      var b: seq<Byte>;
      ok, b := Read(4);
      dest := 0;
      if ok {
        ShiftedWord(b);
        dest := Shifted4(b, 0);
      }
    }

    method ReadFixed64() returns (ok: bool, dest: nat)
      requires Valid()
      modifies this
      ensures Valid() && End() == old(End())
      ensures ok <==> DecFixed(old(Rest()), 8).Parsed?
      ensures ok ==> DecFixed(old(Rest()), 8) == Parsed(dest, Rest())
      ensures !ok ==> Rest() == old(Rest())
    {
      var b: seq<Byte>;
      ok, b := Read(8);
      dest := 0;
      if ok {
        ShiftedWord(b);
        dest := Shifted4(b, 0) + 0x1_0000_0000 * Shifted4(b, 4);
      }
    }

    method SkipVarintBytes() returns (ok: bool)
      requires Valid()
      modifies this
      ensures Valid() && End() == old(End())
      ensures ok <==> SkipVarint(old(Rest())).Parsed?
      ensures ok ==> SkipVarint(old(Rest())) == Parsed((), Rest())
    {
      var again := true;
      while again
        invariant Valid() && End() == old(End())
        invariant SkipVarint(old(Rest())) == if again then SkipVarint(Rest()) else Parsed((), Rest())
        decreases again, bytesLeft
      {
        var byte;
        ok, byte := ReadByte();
        if !ok {
          return;
        }
        again := byte >= 128;
      }
      ok := true;
    }

    method SkipUnknown(wireType: nat) returns (ok: bool)
      requires Valid()
      modifies this
      ensures Valid() && End() == old(End())
      ensures ok <==> SkipField(old(Rest()), wireType).Parsed?
      ensures ok ==> SkipField(old(Rest()), wireType) == Parsed((), Rest())
    {
      hide SkipVarint, DecVarint32;
      var skipped: seq<Byte>;
      if wireType == WT_VARINT {
        ok := SkipVarintBytes();
      } else if wireType == WT_64BIT {
        ok, skipped := Read(8);
      } else if wireType == WT_STRING {
        var length;
        ok, length := ReadVarint32();
        if ok {
          ok, skipped := Read(length);
        }
      } else if wireType == WT_32BIT {
        ok, skipped := Read(4);
      } else {
        ok := false;
      }
    }

    /** The key of the next field. `eof` marks the end of the message, by a zero key or by the stream. */
    method ReadKey() returns (ok: bool, wireType: nat, tag: nat, eof: bool)
      requires Valid()
      modifies this
      ensures Valid() && End() == old(End())
      ensures ok ==> DecKey(old(Rest())) == Key(wireType, tag, Rest())
      ensures !ok && eof ==> DecKey(old(Rest())) == EndOfMessage(Rest())
      ensures !ok && !eof ==> DecKey(old(Rest())) == BadKey
    {
      hide DecVarint32;
      eof, wireType, tag := bytesLeft == 0, 0, 0;
      if eof {
        return false, 0, 0, true;
      }
      var temp;
      ok, temp := ReadVarint32();
      if !ok {
        return;
      }
      if temp == 0 {
        eof := true;
        return false, 0, 0, true;
      }
      tag := temp / 8;
      wireType := temp % 8;
    }

    /** A stream over the declared number of bytes. Until it is closed this stream stands still, with only
        what follows those bytes counted as left. */
    method OpenSubstream() returns (ok: bool, sub: Stream)
      requires Valid()
      modifies this
      ensures ok <==> DecDelimited(old(Rest())).Parsed?
      ensures ok ==> fresh(sub) && sub.Valid() && sub.source == source && sub.state == state
      ensures ok ==> sub.Rest() == DecDelimited(old(Rest())).value && sub.bytesLeft < old(bytesLeft)
      ensures ok ==> sub.End() + bytesLeft == old(End())
      ensures ok ==> source[sub.End()..sub.End() + bytesLeft] == DecDelimited(old(Rest())).rest
      ensures Valid() && (!ok ==> End() == old(End()))
    {
      hide DecVarint32;
      var size;
      sub := this;
      ok, size := ReadVarint32();
      if ok {
        sub := new Stream.Copy(this);
        if sub.bytesLeft < size {
          return false, sub;
        }
        sub.bytesLeft := size;
        bytesLeft := bytesLeft - size;
      }
    }

    /** Closing skips what the substream's reader left. The parent goes on where the substream then ends: right after the
        declared bytes, unless the reader has moved that end, which only a packed array given up half-way does. */
    method CloseSubstream(sub: Stream)
      requires sub != this && sub.Valid() && sub.source == source && sub.End() + bytesLeft <= |source|
      modifies this, sub
      ensures Valid() && state == old(sub.End()) && bytesLeft == old(bytesLeft)
      ensures Rest() == source[old(sub.End())..old(sub.End()) + bytesLeft]
    {
      if sub.bytesLeft != 0 {
        var ok, _ := sub.Read(sub.bytesLeft);
      }
      state := sub.state;
    }
  }
}
