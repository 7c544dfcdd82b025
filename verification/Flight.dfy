/** What it means to send a DTLS flight: records that walk through its messages from front to back. */
module Flight {
  import opened Bits
  import opened Fragments

  /** `DTLS_OUTGOING_MESSAGE`. */
  datatype Outgoing = Outgoing(data: seq<Byte>, epoch: nat, isCcs: bool)

  /** A handshake message is kept as one fragment. */
  predicate MessageOK(m: Outgoing) {
    m.isCcs ||
    var f := ParseFragment(m.data);
    f.Fragment? && f.rest == [] && f.header.fragOff == 0 && f.header.fragLen == f.header.msgLen
  }

  function BodyOf(m: Outgoing): seq<Byte>
    requires MessageOK(m) && !m.isCcs
  {
    ParseFragment(m.data).body
  }

  /** The fragment of `m` with the `n` bytes from `off` on. */
  function FragmentOf(m: Outgoing, off: nat, n: nat): seq<Byte>
    requires MessageOK(m) && !m.isCcs && off + n <= |BodyOf(m)|
  {
    var h := ParseFragment(m.data).header;
    EncHeader(h.(fragOff := off, fragLen := n)) + BodyOf(m)[off..off + n]
  }

  /** A sealed record: what is inside, and the bytes it takes on the wire. */
  datatype Record = Record(isCcs: bool, epoch: nat, plain: seq<Byte>, wireLen: nat)

  /** `outgoing_written` and `outgoing_offset`. */
  datatype Pos = Pos(written: nat, offset: nat)

  ghost predicate FlightOK(messages: seq<Outgoing>) {
    forall m | m in messages :: MessageOK(m)
  }

  ghost predicate PosOK(messages: seq<Outgoing>, p: Pos) {
    && p.written <= |messages| && FlightOK(messages)
    && (p.offset > 0 ==> p.written < |messages| && !messages[p.written].isCcs && p.offset < |BodyOf(messages[p.written])|)
  }

  /** Where record `r` takes the sender from `p`; none if `r` is not the next thing to send. */
  ghost function Advance(messages: seq<Outgoing>, p: Pos, r: Record): (q: Option<Pos>)
    requires PosOK(messages, p)
    ensures q.Some? ==> PosOK(messages, q.value)
  {
    if p.written == |messages| then None
    else
      var m := messages[p.written];
      if r.isCcs != m.isCcs || r.epoch != m.epoch then None
      else if m.isCcs then
        if r.plain == [1] then Some(Pos(p.written + 1, 0)) else None
      else
        var left := |BodyOf(m)| - p.offset;
        var n := |r.plain| - HEADER_LENGTH;
        if n < 0 || n > left || (n == 0 && left > 0) || r.plain != FragmentOf(m, p.offset, n) then None
        else if n == left then Some(Pos(p.written + 1, 0))
        else Some(Pos(p.written, p.offset + n))
  }

  lemma AdvanceFragment(messages: seq<Outgoing>, p: Pos, n: nat, r: Record)
    requires PosOK(messages, p) && p.written < |messages| && !messages[p.written].isCcs && MessageOK(messages[p.written])
    requires var left := |BodyOf(messages[p.written])| - p.offset; n <= left && (n == 0 ==> left == 0)
    requires r.isCcs == false && r.epoch == messages[p.written].epoch
    requires r.plain == FragmentOf(messages[p.written], p.offset, n)
    ensures |r.plain| == HEADER_LENGTH + n
    ensures Advance(messages, p, r)
         == Some(if p.offset + n == |BodyOf(messages[p.written])| then Pos(p.written + 1, 0)
                 else Pos(p.written, p.offset + n))
  {
  }

  lemma AdvanceCcs(messages: seq<Outgoing>, p: Pos, r: Record)
    requires PosOK(messages, p) && p.written < |messages| && messages[p.written].isCcs
    requires r.isCcs && r.epoch == messages[p.written].epoch && r.plain == [1]
    ensures Advance(messages, p, r) == Some(Pos(p.written + 1, 0))
  {
  }

  ghost function AdvanceAll(messages: seq<Outgoing>, p: Pos, rs: seq<Record>): (q: Option<Pos>)
    requires PosOK(messages, p)
    ensures q.Some? ==> PosOK(messages, q.value)
    decreases rs
  {
    if rs == [] then Some(p)
    else
      var q := Advance(messages, p, rs[0]);
      if q.None? then None else AdvanceAll(messages, q.value, rs[1..])
  }

  lemma {:induction false} AdvanceThen(messages: seq<Outgoing>, p: Pos, a: seq<Record>, b: seq<Record>)
    requires PosOK(messages, p) && AdvanceAll(messages, p, a).Some?
    ensures AdvanceAll(messages, p, a + b) == AdvanceAll(messages, AdvanceAll(messages, p, a).value, b)
    decreases a
  {
    hide Advance;
    if a == [] {
      assert a + b == b;
    } else {
      var q := Advance(messages, p, a[0]);
      assert (a + b)[1..] == a[1..] + b;
      AdvanceThen(messages, q.value, a[1..], b);
    }
  }

  lemma AdvanceOne(messages: seq<Outgoing>, p: Pos, r: Record)
    requires PosOK(messages, p)
    ensures AdvanceAll(messages, p, [r]) == Advance(messages, p, r)
  {
    hide Advance;
    var q := Advance(messages, p, r);
    if q.Some? {
      assert [r][1..] == [];
      assert AdvanceAll(messages, q.value, []) == q;
    }
  }

  /** Sending makes the pair (messages left, bytes left) smaller. */
  predicate Ahead(p: Pos, q: Pos) {
    p.written < q.written || (p.written == q.written && p.offset < q.offset)
  }

  lemma AdvanceMore(messages: seq<Outgoing>, p: Pos, rs: seq<Record>, r: Record, q: Pos)
    requires PosOK(messages, p) && AdvanceAll(messages, p, rs).Some?
    requires Advance(messages, AdvanceAll(messages, p, rs).value, r) == Some(q)
    ensures AdvanceAll(messages, p, rs + [r]) == Some(q)
    ensures Ahead(AdvanceAll(messages, p, rs).value, q)
  {
    AdvanceThen(messages, p, rs, [r]);
    AdvanceOne(messages, AdvanceAll(messages, p, rs).value, r);
  }

  // ----- what has been sent once the walk is over -----

  /** The body bytes sent of message `k`, in the order of the records. */
  ghost function SentOf(messages: seq<Outgoing>, p: Pos, rs: seq<Record>, k: nat): seq<Byte>
    requires PosOK(messages, p) && AdvanceAll(messages, p, rs).Some?
    decreases rs
  {
    if rs == [] then []
    else
      var q := Advance(messages, p, rs[0]).value;
      (if p.written == k && !rs[0].isCcs then rs[0].plain[HEADER_LENGTH..] else []) + SentOf(messages, q, rs[1..], k)
  }

  /** How many records were spent on message `k`. */
  ghost function RecordsOf(messages: seq<Outgoing>, p: Pos, rs: seq<Record>, k: nat): nat
    requires PosOK(messages, p) && AdvanceAll(messages, p, rs).Some?
    decreases rs
  {
    if rs == [] then 0
    else
      var q := Advance(messages, p, rs[0]).value;
      (if p.written == k then 1 else 0) + RecordsOf(messages, q, rs[1..], k)
  }

  lemma OneFragment(messages: seq<Outgoing>, p: Pos, r: Record)
    requires PosOK(messages, p) && Advance(messages, p, r).Some? && !messages[p.written].isCcs
    ensures var q, body := Advance(messages, p, r).value, BodyOf(messages[p.written]);
      && !r.isCcs && |r.plain| >= HEADER_LENGTH
      && r.plain[HEADER_LENGTH..] == body[p.offset..if q.written == p.written then q.offset else |body|]
      && (q.written == p.written ==> p.offset < q.offset < |body|)
  {
    var n := |r.plain| - HEADER_LENGTH;
    assert r.plain[HEADER_LENGTH..] == BodyOf(messages[p.written])[p.offset..p.offset + n];
  }

  lemma AdvanceBounds(messages: seq<Outgoing>, p: Pos, r: Record)
    requires PosOK(messages, p) && Advance(messages, p, r).Some?
    ensures var q := Advance(messages, p, r).value;
      && p.written < |messages|
      && (q == Pos(p.written + 1, 0) || (q.written == p.written && !messages[p.written].isCcs && p.offset < q.offset))
  {
  }

  lemma {:induction false} NothingSentBefore(messages: seq<Outgoing>, p: Pos, rs: seq<Record>, k: nat)
    requires PosOK(messages, p) && AdvanceAll(messages, p, rs).Some? && k < p.written
    ensures SentOf(messages, p, rs, k) == [] && RecordsOf(messages, p, rs, k) == 0
    decreases rs
  {
    hide Advance;
    if rs != [] {
      AdvanceBounds(messages, p, rs[0]);
      NothingSentBefore(messages, Advance(messages, p, rs[0]).value, rs[1..], k);
    }
  }

  /** The fragments of a message are contiguous, do not overlap and cover it exactly; an empty message and a
      ChangeCipherSpec get exactly one record. */
  lemma {:induction false} FlightIsPartitioned(messages: seq<Outgoing>, p: Pos, rs: seq<Record>, k: nat)
    requires PosOK(messages, p) && AdvanceAll(messages, p, rs).Some?
    requires p.written <= k < AdvanceAll(messages, p, rs).value.written
    ensures k < |messages| && RecordsOf(messages, p, rs, k) >= 1
    ensures messages[k].isCcs || BodyOf(messages[k]) == [] ==> RecordsOf(messages, p, rs, k) == 1
    ensures messages[k].isCcs ==> SentOf(messages, p, rs, k) == []
    ensures !messages[k].isCcs ==>
      SentOf(messages, p, rs, k) == BodyOf(messages[k])[if k == p.written then p.offset else 0..]
    decreases rs
  {
    hide Advance, BodyOf, MessageOK;
    AdvanceBounds(messages, p, rs[0]);
    var q := Advance(messages, p, rs[0]).value;
    if k < q.written {
      NothingSentBefore(messages, q, rs[1..], k);
    } else {
      FlightIsPartitioned(messages, q, rs[1..], k);
    }
    OneRecord(messages, p, rs[0]);
  }

  lemma OneRecord(messages: seq<Outgoing>, p: Pos, r: Record)
    requires PosOK(messages, p) && Advance(messages, p, r).Some?
    ensures var q, m := Advance(messages, p, r).value, messages[p.written];
      && p.written < |messages| && MessageOK(m) && r.isCcs == m.isCcs
      && (!m.isCcs ==>
        var body := BodyOf(m);
        && |r.plain| >= HEADER_LENGTH
        && p.offset <= |body| && (q.written == p.written ==> p.offset < q.offset < |body|)
        && r.plain[HEADER_LENGTH..] == body[p.offset..if q.written == p.written then q.offset else |body|])
  {
    if !r.isCcs { OneFragment(messages, p, r); }
  }

  // ----- every record is a slice of a message -----

  /** Record `r` carries `n` bytes from `off` on of message `k`. */
  ghost predicate SliceOf(messages: seq<Outgoing>, r: Record, k: nat, off: nat, n: nat) {
    && k < |messages| && MessageOK(messages[k]) && !messages[k].isCcs && off + n <= |BodyOf(messages[k])|
    && r.plain == FragmentOf(messages[k], off, n)
  }

  lemma {:induction false} RecordsAreSlices(messages: seq<Outgoing>, p: Pos, rs: seq<Record>, i: nat)
    returns (k: nat, off: nat, n: nat)
    requires PosOK(messages, p) && AdvanceAll(messages, p, rs).Some? && i < |rs| && !rs[i].isCcs
    ensures SliceOf(messages, rs[i], k, off, n) && k < |messages| && !messages[k].isCcs
    decreases i
  {
    if i == 0 {
      k, off, n := p.written, p.offset, |rs[0].plain| - HEADER_LENGTH;
    } else {
      hide Advance, SliceOf;
      k, off, n := RecordsAreSlices(messages, Advance(messages, p, rs[0]).value, rs[1..], i - 1);
    }
  }

  /** A walk over message `j` has a record for byte `i` of it. */
  lemma {:induction false} RecordWith(messages: seq<Outgoing>, p: Pos, rs: seq<Record>, j: nat, i: nat)
    returns (r: Record, off: nat, n: nat)
    requires PosOK(messages, p) && AdvanceAll(messages, p, rs).Some?
    requires p.written <= j < AdvanceAll(messages, p, rs).value.written && j < |messages|
    requires MessageOK(messages[j]) && !messages[j].isCcs && i < |BodyOf(messages[j])| && (j == p.written ==> p.offset <= i)
    ensures r in rs && !r.isCcs && SliceOf(messages, r, j, off, n) && off <= i < off + n
    decreases rs
  {
    hide SliceOf;
    AdvanceBounds(messages, p, rs[0]);
    var q := Advance(messages, p, rs[0]).value;
    if j == p.written && (q.written > j || i < q.offset) {
      r, off, n := rs[0], p.offset, |rs[0].plain| - HEADER_LENGTH;
      FirstIsSlice(messages, p, r);
    } else {
      r, off, n := RecordWith(messages, q, rs[1..], j, i);
    }
  }

  lemma FirstIsSlice(messages: seq<Outgoing>, p: Pos, r: Record)
    requires PosOK(messages, p) && Advance(messages, p, r).Some? && !messages[p.written].isCcs
    ensures var n, q, len := |r.plain| - HEADER_LENGTH, Advance(messages, p, r).value, |BodyOf(messages[p.written])|;
      && !r.isCcs && n >= 0 && SliceOf(messages, r, p.written, p.offset, n)
      && (if q.written > p.written then p.offset + n == len else p.offset + n == q.offset)
  {
  }

  /** A walk over message `j` has a record of it, even if it is empty. */
  lemma {:induction false} SomeRecord(messages: seq<Outgoing>, p: Pos, rs: seq<Record>, j: nat) returns (r: Record)
    requires PosOK(messages, p) && AdvanceAll(messages, p, rs).Some?
    requires p.written <= j < AdvanceAll(messages, p, rs).value.written && j < |messages| && !messages[j].isCcs
    ensures r in rs && !r.isCcs && exists off: nat, n: nat :: SliceOf(messages, r, j, off, n)
    decreases rs
  {
    hide SliceOf;
    AdvanceBounds(messages, p, rs[0]);
    var q := Advance(messages, p, rs[0]).value;
    if j == p.written {
      r := rs[0];
      FirstIsSlice(messages, p, r);
      assert SliceOf(messages, r, j, p.offset, |r.plain| - HEADER_LENGTH);
    } else {
      r := SomeRecord(messages, q, rs[1..], j);
    }
  }
}
