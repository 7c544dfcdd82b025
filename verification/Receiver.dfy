/** The receiving side of DTLS handshake messages: what a record of fragments does to the window of messages
    being put together, first as functions on values and then as the ring of seven slots. */
module Receiver {
  import opened Bits
  import opened Fragments
  import opened Reassembly

  /** `SSL_MAX_HANDSHAKE_FLIGHT`. */
  const MAX_FLIGHT: nat := 7

  datatype Alert = DecodeError | IllegalParameter | UnexpectedMessage | InternalError

  datatype Outcome = Accepted | Refused(alert: Alert)

  predicate PartialOK(p: Partial) {
    p.msgLen < 0x100_0000 && forall i | i in p.got :: i < p.msgLen
  }

  /** The number of the next message to be read, and the messages that have begun to arrive. */
  datatype Window = Window(readSeq: nat, pending: map<nat, Partial>) {
    predicate Valid() {
      && readSeq < 0x1_0000
      && (forall k | k in pending :: readSeq <= k < readSeq + MAX_FLIGHT && k < 0x1_0000)
      && (forall k | k in pending :: PartialOK(pending[k]))
    }

    /** `dtls1_is_current_message_complete`. */
    predicate Ready() {
      readSeq in pending && pending[readSeq].Complete()
    }

    /** `dtls1_next_message`; the counter has 16 bits. */
    function Next(): (w: Window)
      requires Valid() && Ready()
      ensures w.Valid()
    {
      Window((readSeq + 1) % 0x1_0000, pending - {readSeq})
    }
  }

  /** What is to be received before `dtls1_open_handshake` and what it may refuse: whether the read epoch is 1,
      and the longest message allowed. */
  datatype Limits = Limits(epochOne: bool, maxLen: nat)

  predicate Misplaced(l: Limits, h: Header) {
    h.fragOff > h.msgLen || h.fragOff + h.fragLen > h.msgLen || h.msgLen > l.maxLen
  }

  /** The partly received message `h` belongs to, or a fresh one. */
  function Pending(w: Window, h: Header): Partial {
    if h.seqNo in w.pending then w.pending[h.seqNo] else Partial(h.typ, h.msgLen, map[])
  }

  predicate Compatible(p: Partial, h: Header) {
    p.typ == h.typ && p.msgLen == h.msgLen
  }

  function Taken(p: Partial, h: Header, body: seq<Byte>): Partial {
    if p.Complete() then p else p.Take(h.fragOff, body)
  }

  /** One fragment of a record: one turn of the loop in `dtls1_open_handshake`. */
  function TakeFragment(w: Window, l: Limits, h: Header, body: seq<Byte>): (r: (Window, Outcome))
    requires w.Valid() && HeaderOK(h) && |body| == h.fragLen
    ensures r.0.Valid() && r.0.readSeq == w.readSeq
  {
    if Misplaced(l, h) then (w, Refused(IllegalParameter))
    else if l.epochOne && h.seqNo != w.readSeq then (w, Refused(UnexpectedMessage))
    else if h.seqNo < w.readSeq || h.seqNo > w.readSeq + MAX_FLIGHT then (w, Accepted)
    else if h.seqNo == w.readSeq + MAX_FLIGHT then (w, Refused(InternalError))
    else
      var p := Pending(w, h);
      if !Compatible(p, h) then (w, Refused(IllegalParameter))
      else (w.(pending := w.pending[h.seqNo := Taken(p, h, body)]), Accepted)
  }

  /** All fragments of a record, in order; what came before an error stays. */
  function TakeRecord(w: Window, l: Limits, s: seq<Byte>): (r: (Window, Outcome))
    requires w.Valid()
    ensures r.0.Valid() && r.0.readSeq == w.readSeq
    decreases |s|
  {
    if s == [] then (w, Accepted)
    else
      var f := ParseFragment(s);
      if f.BadFragment? then (w, Refused(DecodeError))
      else
        var r := TakeFragment(w, l, f.header, f.body);
        if r.1.Refused? then r else TakeRecord(r.0, l, f.rest)
  }

  // ----- the ring -----

  /** The window a ring of seven views stands for. */
  ghost function PendingOf(readSeq: nat, views: seq<Option<Partial>>): map<nat, Partial>
    requires |views| == MAX_FLIGHT
  {
    map k | readSeq <= k < readSeq + MAX_FLIGHT && views[k % MAX_FLIGHT].Some? :: views[k % MAX_FLIGHT].value
  }

  lemma SameSlot(readSeq: nat, j: nat, k: nat)
    requires readSeq <= j < readSeq + MAX_FLIGHT && readSeq <= k < readSeq + MAX_FLIGHT
    requires j % MAX_FLIGHT == k % MAX_FLIGHT
    ensures j == k
  {
    assert j == MAX_FLIGHT * (j / MAX_FLIGHT) + j % MAX_FLIGHT && k == MAX_FLIGHT * (k / MAX_FLIGHT) + k % MAX_FLIGHT;
  }

  /** Writing slot `k % 7` is writing message `k`, and no other. */
  lemma StoreInRing(readSeq: nat, views: seq<Option<Partial>>, k: nat, p: Partial)
    requires |views| == MAX_FLIGHT && readSeq <= k < readSeq + MAX_FLIGHT
    ensures PendingOf(readSeq, views[k % MAX_FLIGHT := Some(p)]) == PendingOf(readSeq, views)[k := p]
  {
    var views' := views[k % MAX_FLIGHT := Some(p)];
    forall j | readSeq <= j < readSeq + MAX_FLIGHT && j != k
      ensures views'[j % MAX_FLIGHT] == views[j % MAX_FLIGHT]
    {
      if j % MAX_FLIGHT == k % MAX_FLIGHT { SameSlot(readSeq, j, k); }
    }
  }

  /** Clearing the front slot moves the window by one. */
  lemma AdvanceRing(readSeq: nat, views: seq<Option<Partial>>)
    requires |views| == MAX_FLIGHT
    ensures PendingOf(readSeq + 1, views[readSeq % MAX_FLIGHT := None]) == PendingOf(readSeq, views) - {readSeq}
  {
    var views' := views[readSeq % MAX_FLIGHT := None];
    forall j | readSeq < j < readSeq + MAX_FLIGHT
      ensures views'[j % MAX_FLIGHT] == views[j % MAX_FLIGHT]
    {
      if j % MAX_FLIGHT == readSeq % MAX_FLIGHT { SameSlot(readSeq, j, readSeq); }
    }
    assert (readSeq + MAX_FLIGHT) % MAX_FLIGHT == readSeq % MAX_FLIGHT;
  }

  lemma EmptyRing(readSeq: nat, views: seq<Option<Partial>>)
    requires |views| == MAX_FLIGHT && forall j: nat | j < MAX_FLIGHT :: views[j] == None
    ensures PendingOf(readSeq, views) == map[]
  {
  }

  /** The counter has 16 bits; where it wraps nothing else can be in the ring. */
  lemma WrapRing(readSeq: nat, views: seq<Option<Partial>>)
    requires |views| == MAX_FLIGHT && readSeq < 0x1_0000
    requires forall j: nat | readSeq == 0xFFFF && j < MAX_FLIGHT && j != readSeq % MAX_FLIGHT :: views[j] == None
    ensures PendingOf((readSeq + 1) % 0x1_0000, views[readSeq % MAX_FLIGHT := None]) == PendingOf(readSeq, views) - {readSeq}
  {
    hide PendingOf;
    AdvanceRing(readSeq, views);
    if readSeq == 0xFFFF {
      EmptyRing(0, views[readSeq % MAX_FLIGHT := None]);
      EmptyRing(readSeq + 1, views[readSeq % MAX_FLIGHT := None]);
    }
  }
}
