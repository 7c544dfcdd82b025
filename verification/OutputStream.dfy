/** The output stream of the encoder: it writes into a buffer, or only counts. */
module OutputStream {
  import opened Bits
  import opened Varint
  import opened Encoding
  import opened Memory

  /** What a stream stands for: the bytes of its buffer (or none, if it only counts), the next position, the
      limit and the running count. */
  datatype View = View(sizing: bool, contents: seq<Byte>, state: nat, maxSize: nat, bytesWritten: nat) {
    ghost predicate Valid() {
      sizing || (bytesWritten <= maxSize && state + (maxSize - bytesWritten) <= |contents|)
    }

    /** Whether `n` more bytes may be written. */
    predicate Fits(n: nat) {
      sizing || bytesWritten + n <= maxSize
    }

    /** The stream after `e` has been written, and nothing else touched. */
    function Plus(e: seq<Byte>): (r: View)
      requires Valid() && Fits(|e|)
      ensures r.Valid() && r.bytesWritten == bytesWritten + |e| && r.maxSize == maxSize && r.sizing == sizing
      ensures |r.contents| == |contents|
    {
      if sizing then this.(bytesWritten := bytesWritten + |e|)
      else View(false, contents[..state] + e + contents[state + |e|..], state + |e|, maxSize, bytesWritten + |e|)
    }

    lemma PlusTwice(a: seq<Byte>, b: seq<Byte>)
      requires Valid() && Fits(|a| + |b|)
      ensures Plus(a).Fits(|b|) && Plus(a).Plus(b) == Plus(a + b)
    {
      if !sizing {
        assert Plus(a).Plus(b).contents == Plus(a + b).contents;
      }
    }

    lemma PlusNothing()
      requires Valid()
      ensures Fits(0) && Plus([]) == this
    {
      if !sizing {
        assert Plus([]).contents == contents;
      }
    }
  }

  /** How writing `e` on a stream comes out: it succeeds exactly when `e` is not an error and fits, and then
      `e` is what was added. */
  ghost predicate Wrote(before: View, after: View, e: Encoded, ok: bool)
    requires before.Valid()
  {
    && (ok <==> e.Some? && before.Fits(|e.value|))
    && (ok ==> after == before.Plus(e.value))
  }

  lemma WroteBoth(v0: View, v1: View, v2: View, a: Encoded, b: Encoded, ok: bool)
    requires v0.Valid() && Wrote(v0, v1, a, true) && Wrote(v1, v2, b, ok)
    ensures Wrote(v0, v2, Append(a, b), ok)
  {
    if b.Some? && v0.Fits(|a.value| + |b.value|) {
      v0.PlusTwice(a.value, b.value);
    }
  }

  class Stream {
    /** Null in a stream that only counts. */
    var buffer: array?<Byte>
    var state: nat
    var maxSize: nat
    var bytesWritten: nat

    ghost function Abs(): View
      reads this, buffer
    {
      View(buffer == null, if buffer == null then [] else buffer[..], state, maxSize, bytesWritten)
    }

    ghost predicate Valid()
      reads this, buffer
    {
      Abs().Valid()
    }

    constructor FromBuffer(buf: array<Byte>)
      ensures Valid() && buffer == buf && state == 0 && maxSize == buf.Length && bytesWritten == 0
    {
      buffer := buf;
      state := 0;
      maxSize := buf.Length;
      bytesWritten := 0;
    }

    constructor Sizing()
      ensures Valid() && buffer == null && state == 0 && bytesWritten == 0
    {
      buffer := null;
      state := 0;
      maxSize := 0;
      bytesWritten := 0;
    }

    method Write(data: seq<Byte>) returns (ok: bool)
      requires Valid()
      modifies this, buffer
      ensures Valid() && buffer == old(buffer)
      ensures Wrote(old(Abs()), Abs(), Some(data), ok)
    {
      if buffer != null {
        if bytesWritten + |data| > maxSize {
          return false;
        }
        CopyBytes(buffer, state, data);
        state := state + |data|;
      }
      bytesWritten := bytesWritten + |data|;
      return true;
    }

    /** `pb_write` without data, on a stream that only counts. */
    method Count(size: nat)
      requires Valid() && buffer == null
      modifies this
      ensures Valid() && buffer == null && bytesWritten == old(bytesWritten) + size
      ensures state == old(state) && maxSize == old(maxSize)
    {
      bytesWritten := bytesWritten + size;
    }

    method WriteVarint(value: nat) returns (ok: bool)
      requires Valid() && value < TWO_64
      modifies this, buffer
      ensures Valid() && buffer == old(buffer)
      ensures Wrote(old(Abs()), Abs(), Some(EncVarint(value)), ok)
    {
      if value <= 0x7F {
        ok := Write([value]);
        return;
      }
      var bytes := VarintBytes(value);
      ok := Write(bytes);
    }
  }

  ghost predicate FitsBytes(value: nat, n: nat) {
    value < Pow2(7 * n)
  }

  /** Seven bits a time into a ten-byte buffer, every byte marked as continued; the mark of the last is then taken off. */
  method VarintBytes(value: nat) returns (s: seq<Byte>)
    requires 0x7F < value < TWO_64
    ensures s == EncVarint(value)
  {
    hide FitsBytes, EncVarint;
    FitsTenBytes(value);
    var buffer := new Byte[10];
    var i: nat, v: nat := 0, value;
    while v != 0
      invariant 0 <= i <= 10 && FitsBytes(v, 10 - i) && (i > 0 || v == value)
      invariant v != 0 ==> EncVarint(value) == buffer[..i] + EncVarint(v)
      invariant v == 0 ==> i > 0 && buffer[i - 1] >= 128
      invariant v == 0 ==> EncVarint(value) == buffer[..i - 1] + [buffer[i - 1] - 128]
      decreases v
    {
      ShrinkVarint(v, 10 - i);
      var digit: Byte := v % 128;
      ghost var before := buffer[..i];
      buffer[i] := digit + 128;
      assert buffer[..i] == before && buffer[..i + 1] == before + [digit + 128];
      i, v := i + 1, v / 128;
    }
    ghost var before := buffer[..i - 1];
    buffer[i - 1] := buffer[i - 1] - 128;
    assert buffer[..i] == before + [buffer[i - 1]];
    s := buffer[..i];
  }

  lemma FitsTenBytes(value: nat)
    requires value < TWO_64
    ensures FitsBytes(value, 10)
  {
    Pow2Values();
    Pow2Monotone(64, 70);
  }

  lemma ShrinkVarint(v: nat, n: nat)
    requires v > 0 && FitsBytes(v, n)
    ensures n > 0 && v / 128 < v && v % 128 < 128 && FitsBytes(v / 128, n - 1)
    ensures EncVarint(v) == if v / 128 == 0 then [v % 128] else [v % 128 + 128] + EncVarint(v / 128)
  {
    if n > 0 {
      Pow2Shift(7 * (n - 1));
    }
  }
}
