/** `SSLBuffer`: a byte queue in one block of memory, with 16-bit bookkeeping. */
module SslBuffer {
  import opened Bits
  import opened Memory

  const MAX_CAP: nat := 0xFFFF

  /** The most that aligning the record body may waste in front. */
  const SLACK: nat := 7

  function Cut16(n: nat): (r: nat)
    ensures n < 0x1_0000 ==> r == n
    ensures 0x1_0000 <= n < 0x2_0000 ==> r == n - 0x1_0000
  {
    n % 0x1_0000
  }

  /** The queue of `size` bytes that starts at `offset` of a block. */
  function Queue(block: seq<Byte>, offset: nat, size: nat): (q: seq<Byte>)
    requires offset + size <= |block|
    ensures |q| == size
  {
    block[offset..offset + size]
  }

  /** Where the bookkeeping puts the queue once `len` bytes have been consumed. */
  function Consumed(block: seq<Byte>, offset: nat, size: nat, len: nat): seq<Byte>
    requires len <= size && offset + size <= |block|
  {
    var at := Cut16(offset + Cut16(len));
    if at + (size - len) <= |block| then Queue(block, at, size - len) else []
  }

  /** Nothing is lost from the queue by consuming `len` bytes of it. */
  ghost predicate Follows(block: seq<Byte>, offset: nat, size: nat, len: nat)
    requires len <= size && offset + size <= |block|
  {
    Consumed(block, offset, size, len) == Queue(block, offset, size)[len..]
  }

  /** While the whole block lies below 2^16 the offset does not wrap. */
  lemma BelowFollows(block: seq<Byte>, offset: nat, size: nat, cap: nat, len: nat)
    requires len <= size <= cap && offset + cap <= |block| && offset + cap <= MAX_CAP + 1 && cap <= MAX_CAP
    ensures Follows(block, offset, size, len)
  {
    assert Queue(block, offset, size)[len..] == block[offset + len..offset + size];
    if len < size { assert Cut16(offset + len) == offset + len; }
  }

  lemma BelowFollowsIf(block: seq<Byte>, offset: nat, size: nat, cap: nat, len: nat)
    requires len <= size <= cap && offset + cap <= |block| && cap <= MAX_CAP
    ensures offset + cap <= MAX_CAP + 1 ==> Follows(block, offset, size, len)
  {
    if offset + cap <= MAX_CAP + 1 { BelowFollows(block, offset, size, cap, len); }
  }

  /** A full block of `cap` bytes, all 0 but for the last. */
  function Marked(offset: nat, cap: nat): seq<Byte> {
    seq(offset + cap, i => if i == offset + cap - 1 then 1 else 0)
  }

  /** A block that reaches past 2^16: with all but one byte consumed, the byte left is looked for at the block's start. */
  lemma WrapLoses(offset: nat, cap: nat)
    requires offset <= SLACK && 0 < cap <= MAX_CAP && offset + cap > MAX_CAP + 1
    ensures |Marked(offset, cap)| == offset + cap
    ensures Consumed(Marked(offset, cap), offset, cap, cap - 1) == [0]
    ensures Queue(Marked(offset, cap), offset, cap)[cap - 1..] == [1]
    ensures !Follows(Marked(offset, cap), offset, cap, cap - 1)
  {
    var block := Marked(offset, cap);
    assert Cut16(offset + (cap - 1)) == offset + (cap - 1) - 0x1_0000;
    assert Consumed(block, offset, cap, cap - 1) == [0];
    assert Queue(block, offset, cap)[cap - 1..] == [1];
    assert [0][0] != [1][0];
  }

  /** For instance: a block of 65535 bytes at the most unlucky address. */
  lemma UnluckyBlock()
    ensures !Follows(Marked(7, 65535), 7, 65535, 65534)
  {
    WrapLoses(7, 65535);
  }

  /** What the queue holds is right wherever the block lies and however much is consumed exactly if the capacity asked
      for is at most 65529. */
  lemma OffsetFollows(cap: nat)
    requires 0 < cap <= 0xFFFF
    ensures cap <= 65529 <==>
      forall offset: nat, size: nat, len: nat, block: seq<Byte> |
        offset <= 7 && len <= size <= cap && offset + cap <= |block| :: Follows(block, offset, size, len)
  {
    hide Follows;
    if cap <= MAX_CAP + 1 - SLACK {
      forall offset: nat, size: nat, len: nat, block: seq<Byte> |
        offset <= SLACK && len <= size <= cap && offset + cap <= |block|
        ensures Follows(block, offset, size, len)
      {
        BelowFollows(block, offset, size, cap, len);
      }
    } else {
      WrapLoses(SLACK, cap);
    }
  }

  class Buffer {
    var buf: array?<Byte>
    var offset: nat
    var size: nat
    var cap: nat

    ghost predicate Valid()
      reads this
    {
      && (buf == null ==> offset == 0 && size == 0 && cap == 0)
      && (buf != null ==> size <= cap <= MAX_CAP && offset + cap <= buf.Length)
    }

    /** The block lies below 2^16, so that no consuming goes wrong. */
    predicate Steady()
      reads this
    {
      offset + cap <= MAX_CAP + 1
    }

    /** The bytes in the queue. */
    ghost function Contents(): seq<Byte>
      requires Valid()
      reads this, buf
    {
      if buf == null then [] else buf[offset..offset + size]
    }

    constructor ()
      ensures Valid() && Steady() && Contents() == [] && buf == null
    {
      buf := null;
      offset, size, cap := 0, 0, 0;
    }

    method Clear()
      modifies this
      ensures Valid() && Steady() && Contents() == [] && buf == null && size == 0
    {
      buf := null;
      offset, size, cap := 0, 0, 0;
    }

    /** Makes room for `newCap` bytes in all, moving the queue to a larger block if it must. The block is sure to be
        steady exactly if it has at most 65529 bytes: see `OffsetFollows`. */
    method EnsureCap(headerLen: nat, newCap: nat) returns (ok: bool)
      requires Valid()
      modifies this
      ensures Valid() && Contents() == old(Contents()) && size == old(size)
      ensures buf == old(buf) || fresh(buf)
      ensures ok <==> newCap <= MAX_CAP
      ensures if ok && old(cap) < newCap then cap == newCap && offset <= SLACK
              else buf == old(buf) && cap == old(cap) && offset == old(offset)
      ensures ok ==> newCap <= cap
    {
      if newCap > MAX_CAP {
        return false;
      }
      if cap >= newCap {
        return true;
      }
      var newBuf := new Byte[newCap + SLACK];
      // The block may lie at any address; the body of the record is to start at a multiple of eight.
      var address: nat := *;
      var newOffset := (0 - headerLen - address) % (SLACK + 1);
      if buf != null {
        CopyBytes(newBuf, newOffset, buf[offset..offset + size]);
        assert newBuf[newOffset..newOffset + size] == buf[offset..offset + size];
      }
      buf, offset, cap := newBuf, newOffset, newCap;
      ok := true;
    }

    /** Bytes are put behind the queue (`remaining()`) and counted (`DidWrite`). */
    method Append(data: seq<Byte>)
      requires Valid() && size + |data| <= cap
      modifies this, buf
      ensures Valid() && Contents() == old(Contents()) + data
      ensures buf == old(buf) && cap == old(cap) && offset == old(offset) && size == old(size) + |data|
    {
      if |data| > 0 {
        ghost var before := buf[..];
        CopyBytes(buf, offset + size, data);
        assert buf[offset..offset + size] == before[offset..offset + size];
        assert buf[offset..offset + size + |data|] == before[offset..offset + size] + data;
        size := size + |data|;
      }
    }

    /** The code's own sums, with their 16 bits. In a steady block the rest of the queue is what is left. */
    method Consume(len: nat)
      requires Valid() && len <= size
      modifies this
      ensures Valid() && buf == old(buf) && size == old(size) - len
      ensures buf != null ==> Contents() == Consumed(buf[..], old(offset), old(size), len)
      ensures old(Steady()) ==> Steady() && Contents() == old(Contents())[len..]
    {
      if buf != null {
        BelowFollowsIf(buf[..], offset, size, cap, len);
        offset := Cut16(offset + Cut16(len));
        size := size - Cut16(len);
        cap := cap - Cut16(len);
        assert Contents() == buf[..][offset..offset + size];
      }
    }
  }

  /** The same in a buffer: 65535 bytes from offset 7, all but the last of them consumed. */
  method UnluckyBuffer() returns (b: Buffer, ghost before: seq<Byte>)
    ensures fresh(b) && b.Valid() && |before| == 65535
    ensures b.Contents() == [0] && before[65534..] == [1]
  {
    WrapLoses(7, 65535);
    b := new Buffer();
    b.buf := new Byte[65542](i => if i == 65541 then 1 else 0);
    b.offset, b.size, b.cap := 7, 65535, 65535;
    assert b.buf[..] == Marked(7, 65535);
    before := b.Contents();
    b.Consume(65534);
  }
}
