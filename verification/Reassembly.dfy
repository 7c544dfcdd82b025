/** Putting one DTLS handshake message together: a buffer and a bitmap of the bytes that have arrived. */
module Reassembly {
  import opened Bits
  import opened Fragments
  import opened Memory

  predicate Within(i: int, start: nat, end: nat) {
    start <= i < end
  }

  // ----- what a partly received message stands for -----

  /** The bytes of the body that have arrived, by position. */
  datatype Partial = Partial(typ: Byte, msgLen: nat, got: map<nat, Byte>) {
    predicate Complete() {
      forall i :: 0 <= i < msgLen ==> i in got
    }

    /** The body, once it is complete. */
    function Body(): (b: seq<Byte>)
      requires Complete()
      ensures |b| == msgLen && forall i :: 0 <= i < msgLen ==> b[i] == got[i]
    {
      seq(msgLen, i requires 0 <= i < msgLen => got[i])
    }

    /** Another slice arrives; where it overlaps an earlier one, its bytes win. */
    function Take(off: nat, body: seq<Byte>): Partial {
      Partial(typ, msgLen, got + Slice(off, body))
    }
  }

  /** The bytes of a slice, by position in the whole. */
  function Slice(off: nat, body: seq<Byte>): map<nat, Byte> {
    var positions := Range(off, off + |body|);
    map i | i in positions :: body[i - off]
  }

  ghost predicate Full(marked: set<nat>, n: nat) {
    forall i :: 0 <= i < n ==> i in marked
  }

  function Range(start: nat, end: nat): set<nat> {
    set i | start <= i < end && Within(i, start, end)
  }

  // ----- the bitmap -----

  ghost predicate BitSays(bitmap: seq<Byte>, marked: set<nat>, i: nat)
    requires i < 8 * |bitmap|
  {
    Bit(bitmap[i / 8], i % 8) <==> i in marked
  }

  /** Bit `i % 8` of byte `i / 8` is set exactly when `i` is marked. */
  ghost predicate Refines(bitmap: seq<Byte>, marked: set<nat>) {
    forall i: nat :: i < 8 * |bitmap| ==> BitSays(bitmap, marked, i)
  }

  /** `bit_range`, with the complement taken on 32 bits and the result cut to a byte. */
  function BitRange(start: nat, end: nat): (b: Byte)
    requires start <= end <= 8
  {
    And(TWO_32 - 1 - (Pow2Small(start) - 1), Pow2Small(end) - 1) % 256
  }

  function Pow2Small(n: nat): (p: nat)
    requires n <= 8
    ensures p == Pow2(n) && 1 <= p <= 256
  {
    Pow2Monotone(n, 8);
    Pow2Values();
    Pow2(n)
  }

  lemma BitRangeBits(start: nat, end: nat, j: nat)
    requires start <= end <= 8 && j < 8
    ensures Bit(BitRange(start, end), j) <==> start <= j < end
  {
    hide Pow2, And;
    var low, high := Pow2Small(start) - 1, Pow2Small(end) - 1;
    Pow2Values();
    TruncBits(And(TWO_32 - 1 - low, high), 8, j);
    AndBits(TWO_32 - 1 - low, high, j);
    NotBits(low, 32, j);
    LowMask(start, j);
    LowMask(end, j);
  }

  /** What marking does to byte `k` of the bitmap. */
  ghost predicate ByteMarked(before: Byte, after: Byte, k: nat, start: nat, end: nat) {
    forall j :: 0 <= j < 8 ==> (Bit(after, j) <==> Bit(before, j) || start <= 8 * k + j < end)
  }

  /** `|= bit_range(from, to)`. */
  function OrRange(b: Byte, from: nat, to: nat): (r: Byte)
    requires from <= to <= 8
  {
    hide Pow2, Or, BitRange;
    Pow2Values();
    OrBound(b, BitRange(from, to), 8);
    Or(b, BitRange(from, to))
  }

  lemma OrRangeMarks(b: Byte, from: nat, to: nat, k: nat, start: nat, end: nat)
    requires from <= to <= 8
    requires from == start - 8 * k || (from == 0 && start <= 8 * k)
    requires to == end - 8 * k || (to == 8 && 8 * k + 8 <= end)
    ensures ByteMarked(b, OrRange(b, from, to), k, start, end)
  {
    hide Or, BitRange, Bit;
    forall j | 0 <= j < 8
      ensures Bit(OrRange(b, from, to), j) <==> Bit(b, j) || start <= 8 * k + j < end
    {
      OrBits(b, BitRange(from, to), j);
      BitRangeBits(from, to, j);
    }
  }

  lemma AllBits(j: nat)
    requires j < 8
    ensures Bit(255, j)
  {
    Pow2Values();
    LowMask(8, j);
  }

  lemma FillMarks(b: Byte, k: nat, start: nat, end: nat)
    requires start <= 8 * k && 8 * k + 8 <= end
    ensures ByteMarked(b, 255, k, start, end)
  {
    hide Bit;
    forall j | 0 <= j < 8 ensures Bit(255, j) { AllBits(j); }
  }

  lemma UntouchedByte(b: Byte, k: nat, start: nat, end: nat)
    requires end <= 8 * k || 8 * k + 8 <= start
    ensures ByteMarked(b, b, k, start, end)
  {
  }

  lemma MarkedRefines(before: seq<Byte>, after: seq<Byte>, marked: set<nat>, start: nat, end: nat)
    requires Refines(before, marked) && |before| == |after|
    requires forall k :: 0 <= k < |before| ==> ByteMarked(before[k], after[k], k, start, end)
    ensures Refines(after, marked + Range(start, end))
  {
    hide Bit;
    forall i: nat | i < 8 * |after| ensures BitSays(after, marked + Range(start, end), i) {
      assert BitSays(before, marked, i);
      assert ByteMarked(before[i / 8], after[i / 8], i / 8, start, end);
      assert 8 * (i / 8) + i % 8 == i;
    }
  }

  /** The first part of `dtls1_hm_fragment_mark`: set the bits from `start` up to `end`. */
  method MarkBits(bitmap: array<Byte>, start: nat, end: nat, ghost marked: set<nat>)
    requires start < end <= 8 * bitmap.Length && Refines(bitmap[..], marked)
    modifies bitmap
    ensures Refines(bitmap[..], marked + Range(start, end))
  {
    hide ByteMarked, Refines, OrRange;
    ghost var before := bitmap[..];
    var first, last := start / 8, end / 8;
    if first == last {
      bitmap[first] := OrRange(bitmap[first], start % 8, end % 8);
      OrRangeMarks(before[first], start % 8, end % 8, first, start, end);
    } else {
      bitmap[first] := OrRange(bitmap[first], start % 8, 8);
      OrRangeMarks(before[first], start % 8, 8, first, start, end);
      FillBytes(bitmap, first, last, start, end, before);
      if end % 8 != 0 {
        bitmap[last] := OrRange(bitmap[last], 0, end % 8);
        OrRangeMarks(before[last], 0, end % 8, last, start, end);
      }
    }
    forall k | 0 <= k < |before| ensures ByteMarked(before[k], bitmap[k], k, start, end) {
      if k < first || k >= (end + 7) / 8 { UntouchedByte(before[k], k, start, end); }
    }
    MarkedRefines(before, bitmap[..], marked, start, end);
  }

  /** The whole bytes strictly between the first and the last. */
  method FillBytes(bitmap: array<Byte>, first: nat, last: nat, start: nat, end: nat, ghost before: seq<Byte>)
    requires first == start / 8 && last == end / 8 && first < last <= bitmap.Length == |before|
    requires ByteMarked(before[first], bitmap[first], first, start, end)
    requires forall k :: 0 <= k < |before| && k != first ==> bitmap[k] == before[k]
    modifies bitmap
    ensures forall k :: first <= k < last ==> ByteMarked(before[k], bitmap[k], k, start, end)
    ensures forall k :: 0 <= k < |before| && !(first <= k < last) ==> bitmap[k] == before[k]
  {
    hide ByteMarked;
    var i := first + 1;
    while i < last
      invariant first < i <= last
      invariant forall k :: first <= k < i ==> ByteMarked(before[k], bitmap[k], k, start, end)
      invariant forall k :: 0 <= k < |before| && !(first <= k < i) ==> bitmap[k] == before[k]
    {
      FillMarks(before[i], i, start, end);
      bitmap[i] := 255;
      i := i + 1;
    }
  }

  lemma FullByte(b: Byte, n: nat)
    requires n <= 8 && forall j :: n <= j < 8 ==> !Bit(b, j)
    ensures b == BitRange(0, n) <==> forall j :: 0 <= j < n ==> Bit(b, j)
  {
    hide BitRange, Bit, Pow2;
    forall j | 0 <= j < 8 ensures Bit(BitRange(0, n), j) <==> j < n { BitRangeBits(0, n, j); }
    if forall j :: 0 <= j < n ==> Bit(b, j) {
      Pow2Values();
      BitsDetermine(b, BitRange(0, n), 8);
    }
  }

  lemma FillIsFull()
    ensures BitRange(0, 8) == 255
  {
    hide BitRange, Bit, Pow2;
    forall j | 0 <= j < 8 ensures Bit(255, j) { AllBits(j); }
    FullByte(255, 8);
  }

  /** Byte `k` of the bitmap is full exactly when its first `n` positions are marked. */
  lemma FullPosition(bitmap: seq<Byte>, marked: set<nat>, k: nat, n: nat)
    requires Refines(bitmap, marked) && k < |bitmap| && n <= 8 && forall i | i in marked :: i < 8 * k + n || i >= 8 * k + 8
    ensures bitmap[k] == BitRange(0, n) <==> forall i :: 8 * k <= i < 8 * k + n ==> i in marked
  {
    hide BitRange, Bit;
    forall j | 0 <= j < 8 ensures Bit(bitmap[k], j) <==> 8 * k + j in marked {
      assert BitSays(bitmap, marked, 8 * k + j);
    }
    FullByte(bitmap[k], n);
    if bitmap[k] == BitRange(0, n) {
      forall i | 8 * k <= i < 8 * k + n ensures i in marked {
        assert Bit(bitmap[k], i - 8 * k);
      }
    }
  }

  /** The second part of `dtls1_hm_fragment_mark`: is every byte of the message there? */
  method AllMarkedBits(bitmap: array<Byte>, msgLen: nat, ghost marked: set<nat>) returns (complete: bool)
    requires bitmap.Length == (msgLen + 7) / 8 && Refines(bitmap[..], marked) && forall i | i in marked :: i < msgLen
    ensures complete <==> Full(marked, msgLen)
  {
    hide BitRange, Refines;
    var i := 0;
    while i < msgLen / 8
      invariant 0 <= i <= msgLen / 8
      invariant forall j :: 0 <= j < 8 * i ==> j in marked
    {
      FullPosition(bitmap[..], marked, i, 8);
      FillIsFull();
      if bitmap[i] != 255 {
        return false;
      }
      i := i + 1;
    }
    if msgLen % 8 != 0 {
      FullPosition(bitmap[..], marked, i, msgLen % 8);
      if bitmap[i] != BitRange(0, msgLen % 8) {
        return false;
      }
    }
    return true;
  }

  // ----- the message being put together -----

  /** The marked bytes of the body in a buffer. */
  ghost function BytesAt(data: seq<Byte>, marked: set<nat>): map<nat, Byte>
    requires |data| >= HEADER_LENGTH && forall i | i in marked :: i < |data| - HEADER_LENGTH
  {
    map i | i in marked :: data[HEADER_LENGTH + i]
  }

  /** `hm_fragment`. */
  class Incoming {
    const typ: Byte
    const seqNo: nat
    const msgLen: nat
    /** The header of the whole message and then its body. */
    const data: array<Byte>
    /** Null once the message is complete. */
    var reassembly: array?<Byte>
    /** The positions marked so far. */
    ghost var marked: set<nat>

    ghost predicate Valid()
      reads this, data, reassembly
    {
      && HeaderOK(WholeHeader()) && data.Length == HEADER_LENGTH + msgLen
      && data[..HEADER_LENGTH] == EncHeader(WholeHeader())
      && (forall i | i in marked :: i < msgLen)
      && (reassembly == null <==> Full(marked, msgLen))
      && (reassembly != null ==>
            reassembly != data && reassembly.Length == (msgLen + 7) / 8 && Refines(reassembly[..], marked))
    }

    /** The arrays that belong to this message alone. */
    ghost function Parts(): set<object>
      reads this
    {
      {data} + (if reassembly == null then {} else {reassembly})
    }

    ghost function Abs(): (p: Partial)
      reads this, data
      requires data.Length == HEADER_LENGTH + msgLen && forall i | i in marked :: i < msgLen
      ensures forall i | i in p.got :: i < p.msgLen
    {
      Partial(typ, msgLen, BytesAt(data[..], marked))
    }

    function WholeHeader(): Header {
      Header(typ, msgLen, seqNo, 0, msgLen)
    }

    /** The bitmap is released exactly when every byte has arrived, and then the buffer is the whole message. */
    lemma CompleteMessage()
      requires Valid()
      ensures reassembly == null <==> Abs().Complete()
      ensures Abs().Complete() ==> data[..] == EncHeader(WholeHeader()) + Abs().Body()
    {
      if Full(marked, msgLen) {
        assert Abs().Complete();
        assert data[HEADER_LENGTH..] == Abs().Body();
        assert data[..] == data[..HEADER_LENGTH] + data[HEADER_LENGTH..];
      } else {
        var i :| 0 <= i < msgLen && i !in marked;
        assert i !in Abs().got;
      }
    }

    /** `dtls1_hm_fragment_new`: nothing has arrived, and an empty message is complete at once. */
    constructor (h: Header)
      requires HeaderOK(h)
      ensures Valid() && fresh(Parts())
      ensures typ == h.typ && seqNo == h.seqNo && msgLen == h.msgLen
      ensures Abs() == Partial(h.typ, h.msgLen, map[])
    {
      typ, seqNo, msgLen := h.typ, h.seqNo, h.msgLen;
      data := new Byte[HEADER_LENGTH + h.msgLen];
      reassembly := null;
      marked := {};
      new;
      CopyBytes(data, 0, EncHeader(WholeHeader()));
      assert data[..HEADER_LENGTH] == EncHeader(WholeHeader());
      if msgLen > 0 {
        reassembly := new Byte[(msgLen + 7) / 8](_ => 0);
        NothingMarked(reassembly[..]);
        assert 0 !in marked;
      }
    }

    /** A slice arrives for a message that is not complete yet. */
    method Take(off: nat, body: seq<Byte>)
      requires Valid() && reassembly != null && off + |body| <= msgLen
      modifies this, Parts()
      ensures Valid() && Parts() <= old(Parts())
      ensures Abs() == old(Abs()).Take(off, body)
    {
      hide Refines, Full, BytesAt, Slice, Range, EncHeader;
      ghost var before := data[..];
      CopyBytes(data, HEADER_LENGTH + off, body);
      assert data[..HEADER_LENGTH] == before[..HEADER_LENGTH];
      Mark(off, off + |body|);
      TakenBytes(before, data[..], old(marked), off, body);
    }

    /** `dtls1_hm_fragment_mark`. */
    method Mark(start: nat, end: nat)
      requires Valid() && reassembly != null && start <= end <= msgLen
      modifies this, reassembly
      ensures Valid() && Parts() <= old(Parts())
      ensures marked == old(marked) + Range(start, end)
    {
      hide Refines;
      if start == end {
        assert Range(start, end) == {};
        return;
      }
      MarkBits(reassembly, start, end, marked);
      marked := marked + Range(start, end);
      var complete := AllMarkedBits(reassembly, msgLen, marked);
      if complete {
        reassembly := null;
      }
    }
  }

  lemma NothingMarked(bitmap: seq<Byte>)
    requires forall k :: 0 <= k < |bitmap| ==> bitmap[k] == 0
    ensures Refines(bitmap, {})
  {
    hide Bit;
    forall i: nat | i < 8 * |bitmap| ensures BitSays(bitmap, {}, i) { ZeroBits(i % 8); }
  }

  lemma TakenBytes(before: seq<Byte>, after: seq<Byte>, marked: set<nat>, off: nat, body: seq<Byte>)
    requires |before| >= HEADER_LENGTH + off + |body| && forall i | i in marked :: i < |before| - HEADER_LENGTH
    requires after == before[..HEADER_LENGTH + off] + body + before[HEADER_LENGTH + off + |body|..]
    ensures BytesAt(after, marked + Range(off, off + |body|)) == BytesAt(before, marked) + Slice(off, body)
  {
  }

  /** Slices of one body arrive, in any order, overlapping or not: where each begins and how long it is. */
  function TakeSlices(typ: Byte, body: seq<Byte>, slices: seq<(nat, nat)>): Partial
    requires forall s | s in slices :: s.0 + s.1 <= |body|
  {
    if slices == [] then Partial(typ, |body|, map[])
    else
      var last := slices[|slices| - 1];
      TakeSlices(typ, body, slices[..|slices| - 1]).Take(last.0, body[last.0..last.0 + last.1])
  }

  ghost predicate Covered(slices: seq<(nat, nat)>, i: nat) {
    exists s :: s in slices && s.0 <= i < s.0 + s.1
  }

  lemma CoveredMore(slices: seq<(nat, nat)>, last: (nat, nat), i: nat)
    ensures Covered(slices + [last], i) <==> Covered(slices, i) || last.0 <= i < last.0 + last.1
  {
    if Covered(slices, i) {
      var s :| s in slices && s.0 <= i < s.0 + s.1;
      assert s in slices + [last];
    }
    if last.0 <= i < last.0 + last.1 { assert last in slices + [last]; }
  }

  lemma {:induction false} ArrivedIsCovered(typ: Byte, body: seq<Byte>, slices: seq<(nat, nat)>)
    requires forall s | s in slices :: s.0 + s.1 <= |body|
    ensures var p := TakeSlices(typ, body, slices);
      && p.msgLen == |body|
      && (forall i: nat :: i in p.got <==> Covered(slices, i))
      && (forall i | i in p.got :: i < |body| && p.got[i] == body[i])
  {
    hide Covered;
    if slices == [] {
      forall i: nat ensures !Covered([], i) { NothingCovered(i); }
    } else {
      var rest, last := slices[..|slices| - 1], slices[|slices| - 1];
      ArrivedIsCovered(typ, body, rest);
      assert slices == rest + [last];
      forall i: nat ensures Covered(slices, i) <==> Covered(rest, i) || last.0 <= i < last.0 + last.1 {
        CoveredMore(rest, last, i);
      }
    }
  }

  lemma NothingCovered(i: nat)
    ensures !Covered([], i)
  {
  }

  /** What has arrived is exactly what some slice covers, with the bytes of the body; the message is complete exactly
      when every byte is covered, and then it is that body. */
  lemma SlicesOfOneMessage(typ: Byte, body: seq<Byte>, slices: seq<(nat, nat)>)
    requires forall s | s in slices :: s.0 + s.1 <= |body|
    ensures var p := TakeSlices(typ, body, slices);
      && p.msgLen == |body|
      && (forall i: nat :: i in p.got <==> Covered(slices, i))
      && (p.Complete() <==> forall i: nat :: i < |body| ==> Covered(slices, i))
      && (p.Complete() ==> p.Body() == body)
  {
    hide Covered, TakeSlices;
    ArrivedIsCovered(typ, body, slices);
  }
}
