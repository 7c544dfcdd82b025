/** What the fields of a fragment header are in its bytes, and what becomes of a fragment in terms of them. */
module FragmentFormat {
  import opened Bits
  import opened Fragments
  import opened Reassembly
  import opened Receiver
  import opened DtlsRecords

  /** Numbers of two and three bytes have the most significant byte first. */
  lemma BigEndianHeads(s: seq<Byte>, n: nat)
    ensures |s| == 3 ==> FromU24(s) == BigEndian(s)
    ensures n < 0x100_0000 ==> BigEndian(U24(n)) == n
    ensures n < 0x1_0000 ==> BigEndian(U16(n)) == n
  {
    hide BigEndian, U24;
    if |s| == 3 { ThreeBytes(s); }
    if n < 0x100_0000 {
      ThreeBytes(U24(n));
      U24RoundTrip(n);
    }
    if n < 0x1_0000 { TwoBytes(U16(n)); }
  }

  lemma ThreeBytes(s: seq<Byte>)
    requires |s| == 3
    ensures var a: nat, b: nat := s[0], s[1]; BigEndian(s) == a * 65536 + b * 256 + s[2]
  {
    hide Pow2;
    assert s[..2][0] == s[0] && s[..2][1] == s[1];
    TwoBytes(s[..2]);
  }

  /** The header of section 4.2.2 of RFC 6347: type, length, sequence number, fragment offset and fragment length. */
  lemma HeaderIs(h: Header, t: seq<Byte>)
    requires HeaderOK(h)
    ensures var s := EncHeader(h) + t;
      && |s| == 12 + |t| && s[0] == h.typ && BigEndian(s[1..4]) == h.msgLen && BigEndian(s[4..6]) == h.seqNo
      && BigEndian(s[6..9]) == h.fragOff && BigEndian(s[9..12]) == h.fragLen && s[12..] == t
  {
    hide EncHeader, U24, U16, BigEndian;
    HeaderParts(h, t);
    BigEndianHeads([], h.msgLen);
    BigEndianHeads([], h.seqNo);
    BigEndianHeads([], h.fragOff);
    BigEndianHeads([], h.fragLen);
  }

  // ----- one fragment -----

  /** A fragment of the message has begun to arrive with another type or length. */
  predicate Mismatched(w: Window, h: Header) {
    h.seqNo in w.pending && (w.pending[h.seqNo].typ != h.typ || w.pending[h.seqNo].msgLen != h.msgLen)
  }

  /** When a fragment is refused, and with which alert. */
  function Verdict(w: Window, l: Limits, h: Header): Receiver.Outcome {
    var ahead: int := h.seqNo - w.readSeq;
    if h.fragOff + h.fragLen > h.msgLen || h.msgLen > l.maxLen then Refused(IllegalParameter)
    else if l.epochOne && ahead != 0 then Refused(UnexpectedMessage)
    else if ahead == 7 then Refused(InternalError)
    else if 0 <= ahead < 7 && Mismatched(w, h) then Refused(IllegalParameter)
    else Accepted
  }

  lemma FragmentVerdict(w: Window, l: Limits, h: Header, body: seq<Byte>)
    requires w.Valid() && HeaderOK(h) && |body| == h.fragLen
    ensures TakeFragment(w, l, h, body).1 == Verdict(w, l, h)
    ensures Verdict(w, l, h).Refused? || !(w.readSeq <= h.seqNo < w.readSeq + 7) ==> TakeFragment(w, l, h, body).0 == w
  {
    hide Taken;
  }

  lemma SliceIs(off: nat, body: seq<Byte>)
    ensures forall i: nat :: i in Slice(off, body) <==> off <= i < off + |body|
    ensures forall i | i in Slice(off, body) :: Slice(off, body)[i] == body[i - off]
  {
  }

  /** What a partly received message holds once a slice that lies within it has arrived. */
  lemma TakenIs(p: Partial, h: Header, body: seq<Byte>)
    requires |body| == h.fragLen && h.fragOff + h.fragLen <= p.msgLen
    ensures var p' := Taken(p, h, body);
      && p'.typ == p.typ && p'.msgLen == p.msgLen
      && (forall i: nat :: i in p'.got <==> i in p.got || h.fragOff <= i < h.fragOff + h.fragLen)
      && (forall i: nat | i in p.got && (i < h.fragOff || h.fragOff + h.fragLen <= i) :: p'.got[i] == p.got[i])
      && (p.Complete() ==> p'.got == p.got)
      && (!p.Complete() ==> forall i: nat | i < h.fragLen :: p'.got[h.fragOff + i] == body[i])
  {
    hide Slice;
    SliceIs(h.fragOff, body);
  }

  /** A fragment that is kept adds its bytes to its message, at their places, and touches no other message. */
  lemma FragmentKept(w: Window, l: Limits, h: Header, body: seq<Byte>)
    requires w.Valid() && HeaderOK(h) && |body| == h.fragLen
    requires Verdict(w, l, h) == Accepted && w.readSeq <= h.seqNo < w.readSeq + 7
    ensures var w' := TakeFragment(w, l, h, body).0;
      && w'.pending.Keys == w.pending.Keys + {h.seqNo}
      && (forall k | k in w.pending && k != h.seqNo :: w'.pending[k] == w.pending[k])
      && w'.pending[h.seqNo].typ == h.typ && w'.pending[h.seqNo].msgLen == h.msgLen
    ensures var had, has := (if h.seqNo in w.pending then w.pending[h.seqNo].got else map[]),
                            TakeFragment(w, l, h, body).0.pending[h.seqNo].got;
      && (forall i: nat :: i in has <==> i in had || h.fragOff <= i < h.fragOff + h.fragLen)
      && (forall i: nat | i in had && (i < h.fragOff || h.fragOff + h.fragLen <= i) :: has[i] == had[i])
      && (h.seqNo in w.pending && w.pending[h.seqNo].Complete() ==> has == had)
      && (!(h.seqNo in w.pending && w.pending[h.seqNo].Complete()) ==>
            forall i: nat | i < h.fragLen :: has[h.fragOff + i] == body[i])
  {
    hide Taken;
    var p := Pending(w, h);
    var p' := Taken(p, h, body);
    TakenIs(p, h, body);
    assert p.typ == h.typ && p.msgLen == h.msgLen && p.got == if h.seqNo in w.pending then w.pending[h.seqNo].got else map[];
    assert TakeFragment(w, l, h, body).0 == w.(pending := w.pending[h.seqNo := p']);
    if h.seqNo !in w.pending && p.Complete() { assert h.fragLen == 0 || h.fragOff in p.got; }
  }
}
