/** The ring of incoming handshake messages of `DTLS1_STATE`. */
module Ring {
  import opened Bits
  import opened Fragments
  import opened Reassembly
  import opened Receiver

  /** A complete message as the handshake sees it: in one piece. */
  function WholeMessage(seqNo: nat, p: Partial): seq<Byte>
    requires seqNo < 0x1_0000 && p.msgLen < 0x100_0000 && p.Complete()
  {
    EncHeader(Header(p.typ, p.msgLen, seqNo, 0, p.msgLen)) + p.Body()
  }

  class MessageRing {
    var readSeq: nat
    const slots: array<Incoming?>
    ghost var views: seq<Option<Partial>>
    ghost var Repr: set<object>
    /** The slot each object of a message belongs to. */
    ghost var owner: map<object, nat>

    /** An occupied slot `i` holds a message whose number is `i` modulo 7 and lies in the window, and shares
        nothing with the other slots. */
    ghost predicate SlotOK(i: nat)
      requires i < MAX_FLIGHT && slots.Length == MAX_FLIGHT && |views| == MAX_FLIGHT
      reads this, slots, Repr
    {
      if slots[i] == null then views[i] == None
      else
        var m: Incoming := slots[i];
        && m in Repr && m.Parts() <= Repr && this !in m.Parts() && slots !in m.Parts()
        && (forall o | o in m.Parts() :: o in owner && owner[o] == i)
        && m in owner && owner[m] == i
        && m.Valid() && views[i] == Some(m.Abs())
        && m.seqNo % MAX_FLIGHT == i && readSeq <= m.seqNo < readSeq + MAX_FLIGHT
    }

    ghost predicate Valid()
      reads this, Repr
      ensures Valid() ==> this in Repr
    {
      && this in Repr && slots in Repr && slots.Length == MAX_FLIGHT && |views| == MAX_FLIGHT
      && Abs().Valid() && owner.Keys <= Repr
      && (forall i: nat :: i < MAX_FLIGHT ==> SlotOK(i))
    }

    ghost function Abs(): Window
      reads this
      requires |views| == MAX_FLIGHT
    {
      Window(readSeq, PendingOf(readSeq, views))
    }

    constructor ()
      ensures Valid() && fresh(Repr) && Abs() == Window(0, map[])
    {
      readSeq := 0;
      slots := new Incoming?[MAX_FLIGHT](_ => null);
      views := seq(MAX_FLIGHT, _ => None);
      owner := map[];
      new;
      Repr := {this, slots};
    }

    /** The ring is a map from message numbers: the slot of number `k` holds message `k` or nothing. */
    lemma SlotOf(k: nat)
      requires Valid() && readSeq <= k < readSeq + MAX_FLIGHT
      ensures var i := k % MAX_FLIGHT;
        && SlotOK(i) && (k in Abs().pending <==> slots[i] != null)
        && (slots[i] != null ==>
              slots[i].seqNo == k && k < 0x1_0000 && slots[i].Valid() && Abs().pending[k] == slots[i].Abs())
    {
      assert SlotOK(k % MAX_FLIGHT);
      var m := slots[k % MAX_FLIGHT];
      if m != null { SameSlot(readSeq, m.seqNo, k); }
    }

    method IsComplete() returns (c: bool)
      requires Valid()
      ensures c <==> Abs().Ready()
    {
      SlotOf(readSeq);
      var m := slots[readSeq % MAX_FLIGHT];
      if m != null { m.CompleteMessage(); }
      c := m != null && m.reassembly == null;
    }

    /** `dtls1_get_message`: the front message with its header, once it is complete. */
    method GetMessage() returns (m: Option<seq<Byte>>)
      requires Valid()
      ensures Abs().Ready() ==> m == Some(WholeMessage(readSeq, Abs().pending[readSeq]))
      ensures !Abs().Ready() ==> m == None
    {
      var complete := IsComplete();
      if !complete {
        return None;
      }
      SlotOf(readSeq);
      var front := slots[readSeq % MAX_FLIGHT];
      front.CompleteMessage();
      return Some(front.data[..]);
    }

    /** Slot `j` and the message in it are as they were. */
    twostate predicate Kept(j: nat)
      requires j < MAX_FLIGHT && slots.Length == MAX_FLIGHT && |views| == MAX_FLIGHT && old(|views| == MAX_FLIGHT)
      reads this, slots, slots[j], if slots[j] == null then {} else slots[j].Parts()
    {
      && slots[j] == old(slots[j]) && views[j] == old(views[j])
      && (slots[j] != null ==> unchanged(slots[j]) && unchanged(old(slots[j].Parts())))
    }

    twostate lemma KeptSlot(j: nat)
      requires j < MAX_FLIGHT && old(Valid()) && |views| == MAX_FLIGHT && Repr >= old(Repr) && Kept(j)
      requires forall o | o in old(owner) :: o in owner && owner[o] == old(owner[o])
      requires slots[j] != null ==> readSeq <= slots[j].seqNo < readSeq + MAX_FLIGHT
      ensures SlotOK(j)
    {
      assert old(SlotOK(j));
    }

    lemma OtherNumbers()
      requires Valid()
      ensures forall j: nat | j < MAX_FLIGHT && j != readSeq % MAX_FLIGHT && slots[j] != null ::
        readSeq < slots[j].seqNo < readSeq + MAX_FLIGHT && slots[j].seqNo < 0x1_0000
      ensures forall j: nat | readSeq == 0xFFFF && j < MAX_FLIGHT && j != readSeq % MAX_FLIGHT :: views[j] == None
    {
      forall j: nat | j < MAX_FLIGHT && j != readSeq % MAX_FLIGHT && slots[j] != null
        ensures readSeq < slots[j].seqNo < readSeq + MAX_FLIGHT && slots[j].seqNo < 0x1_0000
      {
        assert SlotOK(j);
      }
      forall j: nat | readSeq == 0xFFFF && j < MAX_FLIGHT && j != readSeq % MAX_FLIGHT ensures views[j] == None {
        assert SlotOK(j);
      }
    }

    lemma EmptySlot(j: nat)
      requires j < MAX_FLIGHT && slots.Length == MAX_FLIGHT
      requires |views| == MAX_FLIGHT && slots[j] == null && views[j] == None
      ensures SlotOK(j)
    {
    }

    /** `dtls1_next_message`. */
    method NextMessage()
      requires Valid() && Abs().Ready()
      modifies Repr
      ensures Valid() && Repr == old(Repr)
      ensures Abs() == old(Abs()).Next()
    {
      hide SlotOK, PendingOf;
      var i := readSeq % MAX_FLIGHT;
      SlotOf(readSeq);
      ghost var w := Abs();
      OtherNumbers();
      WrapRing(readSeq, views);
      slots[i] := null;
      views := views[i := None];
      readSeq := (readSeq + 1) % 0x1_0000;
      assert Abs() == w.Next();
      forall j: nat | j < MAX_FLIGHT ensures SlotOK(j) {
        if j == i { EmptySlot(j); } else { KeptSlot(j); }
      }
    }

    twostate lemma KeptNumber(j: nat)
      requires j < MAX_FLIGHT && old(Valid()) && |views| == MAX_FLIGHT
      requires Repr >= old(Repr) && Kept(j) && readSeq == old(readSeq)
      requires forall o | o in old(owner) :: o in owner && owner[o] == old(owner[o])
      ensures SlotOK(j)
    {
      assert old(SlotOK(j));
      KeptSlot(j);
    }

    /** Message `m` has just been put into its empty slot. */
    lemma NewSlot(i: nat, m: Incoming)
      requires i < MAX_FLIGHT && slots.Length == MAX_FLIGHT && |views| == MAX_FLIGHT
      requires slots[i] == m && m.Valid() && views[i] == Some(m.Abs()) && m.seqNo % MAX_FLIGHT == i
      requires readSeq <= m.seqNo < readSeq + MAX_FLIGHT && m in Repr && m.Parts() <= Repr
      requires this !in m.Parts() && slots !in m.Parts() && forall o | o in m.Parts() + {m} :: o in owner && owner[o] == i
      ensures SlotOK(i)
    {
    }

    /** Puts a message that shares nothing with the ring into its empty slot. */
    method Insert(m: Incoming)
      requires Valid() && m.Valid() && readSeq <= m.seqNo < readSeq + MAX_FLIGHT
      requires slots[m.seqNo % MAX_FLIGHT] == null && m !in Repr && m.Parts() !! Repr
      modifies this, slots
      ensures Valid() && Repr == old(Repr) + {m} + m.Parts() && slots[m.seqNo % MAX_FLIGHT] == m
      ensures Abs() == old(Abs()).(pending := old(Abs()).pending[m.seqNo := old(m.Abs())])
    {
      hide SlotOK, PendingOf, BytesAt, Refines, Full, EncHeader;
      var i := m.seqNo % MAX_FLIGHT;
      StoreInRing(readSeq, views, m.seqNo, m.Abs());
      assert PartialOK(m.Abs());
      slots[i] := m;
      views := views[i := Some(m.Abs())];
      Repr := Repr + {m} + m.Parts();
      owner := owner + (map o | o in m.Parts() + {m} :: i);
      NewSlot(i, m);
      forall j: nat | j < MAX_FLIGHT ensures SlotOK(j) {
        if j != i { KeptNumber(j); }
      }
    }

    /** `dtls1_get_incoming_message`: the message the fragment belongs to, put into the ring if it is new. */
    method GetIncoming(h: Header) returns (m: Incoming?, alert: Alert)
      requires Valid() && HeaderOK(h)
      modifies Repr
      ensures Valid() && old(Repr) <= Repr && fresh(Repr - old(Repr)) && readSeq == old(readSeq)
      ensures m == null ==> Abs() == old(Abs())
      ensures m == null && readSeq <= h.seqNo < readSeq + MAX_FLIGHT ==>
        alert == IllegalParameter && !Compatible(Pending(Abs(), h), h)
      ensures m == null && !(readSeq <= h.seqNo < readSeq + MAX_FLIGHT) ==> alert == InternalError
      ensures m != null ==>
        && readSeq <= h.seqNo < readSeq + MAX_FLIGHT && m == slots[h.seqNo % MAX_FLIGHT]
        && Compatible(Pending(old(Abs()), h), h)
        && Abs() == old(Abs()).(pending := old(Abs()).pending[h.seqNo := Pending(old(Abs()), h)])
    {
      hide SlotOK, PendingOf;
      alert := InternalError;
      if h.seqNo < readSeq || h.seqNo - readSeq >= MAX_FLIGHT {
        return null, alert;
      }
      m := slots[h.seqNo % MAX_FLIGHT];
      SlotOf(h.seqNo);
      if m != null {
        assert m.seqNo == h.seqNo;
        if m.typ != h.typ || m.msgLen != h.msgLen {
          return null, IllegalParameter;
        }
        return;
      }
      m := new Incoming(h);
      Insert(m);
    }

    /** A message of the ring has taken a slice; the ring follows. */
    method TakeInto(m: Incoming, off: nat, body: seq<Byte>)
      requires Valid() && readSeq <= m.seqNo < readSeq + MAX_FLIGHT && m == slots[m.seqNo % MAX_FLIGHT]
      requires m.Valid() && m.reassembly != null && off + |body| <= m.msgLen
      modifies Repr
      ensures Valid() && Repr == old(Repr)
      ensures Abs() == old(Abs()).(pending := old(Abs()).pending[m.seqNo := old(m.Abs()).Take(off, body)])
    {
      hide SlotOK, PendingOf, BytesAt, Refines, Full, EncHeader;
      var i := m.seqNo % MAX_FLIGHT;
      SlotOf(m.seqNo);
      Others(i);
      StoreInRing(readSeq, views, m.seqNo, m.Abs().Take(off, body));
      m.Take(off, body);
      views := views[i := Some(m.Abs())];
      NewSlot(i, m);
      forall j: nat | j < MAX_FLIGHT ensures SlotOK(j) {
        if j != i { KeptNumber(j); }
      }
    }

    lemma Others(i: nat)
      requires Valid() && i < MAX_FLIGHT && slots[i] != null
      ensures forall j: nat :: j < MAX_FLIGHT && j != i && slots[j] != null ==>
        && slots[j] != slots[i] && slots[j] !in slots[i].Parts()
        && slots[i] !in slots[j].Parts() && slots[i].Parts() !! slots[j].Parts()
    {
      assert SlotOK(i);
      forall j: nat | j < MAX_FLIGHT && j != i && slots[j] != null
        ensures slots[j] != slots[i] && slots[j] !in slots[i].Parts()
        ensures slots[i] !in slots[j].Parts() && slots[i].Parts() !! slots[j].Parts()
      {
        assert SlotOK(j);
      }
    }

    /** One fragment: one turn of the loop of `dtls1_open_handshake`. */
    method TakeOne(l: Limits, h: Header, body: seq<Byte>) returns (outcome: Outcome)
      requires Valid() && HeaderOK(h) && |body| == h.fragLen
      modifies Repr
      ensures Valid() && old(Repr) <= Repr && fresh(Repr - old(Repr))
      ensures (Abs(), outcome) == TakeFragment(old(Abs()), l, h, body)
    {
      hide SlotOK, PendingOf;
      if h.fragOff > h.msgLen || h.fragOff + h.fragLen > h.msgLen || h.msgLen > l.maxLen {
        return Refused(IllegalParameter);
      }
      if l.epochOne && h.seqNo != readSeq {
        return Refused(UnexpectedMessage);
      }
      if h.seqNo < readSeq || h.seqNo > readSeq + MAX_FLIGHT {
        return Accepted;
      }
      var m, alert := GetIncoming(h);
      if m == null {
        return Refused(alert);
      }
      ghost var w, p := old(Abs()), Pending(old(Abs()), h);
      TakeCompatible(m, h, body);
      assert w.pending[h.seqNo := p][h.seqNo := Taken(p, h, body)] == w.pending[h.seqNo := Taken(p, h, body)];
      return Accepted;
    }

    /** The fragment fits message `m`; it is dropped if the message is complete already. */
    method TakeCompatible(m: Incoming, h: Header, body: seq<Byte>)
      requires Valid() && readSeq <= h.seqNo < readSeq + MAX_FLIGHT && m == slots[h.seqNo % MAX_FLIGHT]
      requires h.seqNo in Abs().pending && Compatible(Abs().pending[h.seqNo], h) && h.fragOff + |body| <= h.msgLen
      modifies Repr
      ensures Valid() && Repr == old(Repr)
      ensures Abs() == old(Abs()).(pending := old(Abs()).pending[h.seqNo := Taken(old(Abs()).pending[h.seqNo], h, body)])
    {
      hide SlotOK, PendingOf;
      SlotOf(h.seqNo);
      m.CompleteMessage();
      if m.reassembly != null {
        TakeInto(m, h.fragOff, body);
      }
    }

    /** A whole handshake record. */
    method TakeAll(l: Limits, record: seq<Byte>) returns (outcome: Outcome)
      requires Valid()
      modifies Repr
      ensures Valid() && old(Repr) <= Repr && fresh(Repr - old(Repr))
      ensures (Abs(), outcome) == TakeRecord(old(Abs()), l, record)
    {
      hide TakeFragment, ParseFragment;
      var s := record;
      while |s| > 0
        invariant Valid() && old(Repr) <= Repr && fresh(Repr - old(Repr))
        invariant TakeRecord(Abs(), l, s) == TakeRecord(old(Abs()), l, record)
      {
        var f := ParseFragment(s);
        if f.BadFragment? {
          return Refused(DecodeError);
        }
        outcome := TakeOne(l, f.header, f.body);
        if outcome.Refused? {
          return;
        }
        s := f.rest;
      }
      return Accepted;
    }
  }
}
