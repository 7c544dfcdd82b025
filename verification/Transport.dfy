/** DTLS handshake messages end to end: a sender that cuts each flight into packets as often as it likes, a network
    that drops, repeats and reorders them, and a receiver that puts messages together and reads them. */
module Transport {
  import opened Bits
  import opened Fragments
  import opened Reassembly
  import opened Receiver
  import opened Ring
  import opened Flight

  /** `history` has every handshake message ever queued, by number; `flight` is the current flight;
      `network` every packet ever sent; `heard` the records the receiver has processed. */
  datatype State = State(
    history: seq<Outgoing>, flight: seq<Outgoing>, network: set<seq<Record>>,
    window: Window, heard: set<Record>, delivered: seq<seq<Byte>>, failed: bool)

  datatype Action =
    | StartFlight(messages: seq<Outgoing>)
    | Send(from: Pos, packet: seq<Record>)
    | Receive(packet: seq<Record>, i: nat, limits: Limits)
    | Read

  function HeaderOf(m: Outgoing): Header
    requires MessageOK(m) && !m.isCcs
  {
    ParseFragment(m.data).header
  }

  /** Message number `k` of a handshake. */
  ghost predicate Numbered(m: Outgoing, k: nat) {
    MessageOK(m) && !m.isCcs && HeaderOf(m).seqNo == k
  }

  ghost predicate HistoryOK(history: seq<Outgoing>) {
    |history| < 0x1_0000 && forall k: nat :: k < |history| ==> Numbered(history[k], k)
  }

  function HandshakeOnly(messages: seq<Outgoing>): seq<Outgoing> {
    if messages == [] then []
    else (if messages[0].isCcs then [] else [messages[0]]) + HandshakeOnly(messages[1..])
  }

  ghost predicate Init(s: State) {
    s == State([], [], {}, Window(0, map[]), {}, [], false)
  }

  /** The peer begins a flight once it has been told, by the answer to it, that the last one has been read. */
  ghost predicate Enabled(s: State, a: Action) {
    match a
    case StartFlight(messages) =>
      && s.window.readSeq == |s.history| && |messages| <= MAX_FLIGHT && FlightOK(messages)
      && HistoryOK(s.history + HandshakeOnly(messages))
    case Send(from, packet) => PosOK(s.flight, from) && AdvanceAll(s.flight, from, packet).Some?
    case Receive(packet, i, limits) => !s.failed && packet in s.network && i < |packet| && s.window.Valid()
    case Read => !s.failed && s.window.Valid() && s.window.Ready()
  }

  ghost function Step(s: State, a: Action): State
    requires Enabled(s, a)
  {
    match a
    case StartFlight(messages) => s.(history := s.history + HandshakeOnly(messages), flight := messages)
    case Send(_, packet) => s.(network := s.network + {packet})
    case Receive(packet, i, limits) => Received(s, packet[i], limits)
    case Read =>
      var message := WholeMessage(s.window.readSeq, s.window.pending[s.window.readSeq]);
      s.(window := s.window.Next(), delivered := s.delivered + [message])
  }

  ghost function Received(s: State, r: Record, limits: Limits): State
    requires s.window.Valid()
  {
    if r.isCcs then s
    else
      var t := TakeRecord(s.window, limits, r.plain);
      if t.1.Refused? then s.(window := t.0, failed := true)
      else s.(window := t.0, heard := s.heard + {r})
  }

  // ----- the invariant -----

  /** A partly received message agrees with the one that was sent. */
  ghost predicate Agrees(p: Partial, m: Outgoing)
    requires MessageOK(m) && !m.isCcs
  {
    && p.typ == HeaderOf(m).typ && p.msgLen == |BodyOf(m)|
    && forall i | i in p.got :: i < |BodyOf(m)| && p.got[i] == BodyOf(m)[i]
  }

  ghost predicate WindowAgrees(w: Window, history: seq<Outgoing>)
    requires HistoryOK(history)
  {
    && w.Valid() && w.readSeq <= |history| <= w.readSeq + MAX_FLIGHT
    && forall k | k in w.pending :: k < |history| && Numbered(history[k], k) && Agrees(w.pending[k], history[k])
  }

  ghost predicate FromHistory(history: seq<Outgoing>, r: Record) {
    r.isCcs || exists k: nat, off: nat, n: nat :: SliceOf(history, r, k, off, n)
  }

  /** What has been heard of a message not yet read is in the window. */
  ghost predicate Kept(w: Window, history: seq<Outgoing>, r: Record) {
    forall k: nat, off: nat, n: nat :: SliceOf(history, r, k, off, n) && k >= w.readSeq ==> KeptSlice(w, k, off, n)
  }

  ghost predicate KeptSlice(w: Window, k: nat, off: nat, n: nat) {
    k in w.pending && forall i :: off <= i < off + n ==> i in w.pending[k].got
  }

  ghost predicate Inv(s: State) {
    && HistoryOK(s.history) && WindowAgrees(s.window, s.history)
    && FlightOK(s.flight) && (forall m | m in s.flight && !m.isCcs :: m in s.history)
    && (forall p | p in s.network :: forall r | r in p :: FromHistory(s.history, r))
    && (forall r | r in s.heard :: FromHistory(s.history, r) && !r.isCcs && Kept(s.window, s.history, r))
    && s.delivered == Texts(s.history, s.window.readSeq)
  }

  /** The first `n` messages as they were sent. */
  ghost function Texts(history: seq<Outgoing>, n: nat): seq<seq<Byte>>
    requires n <= |history|
  {
    seq(n, k requires 0 <= k < n => history[k].data)
  }

  // ----- receiving one record -----

  lemma SliceParses(m: Outgoing, off: nat, n: nat)
    requires MessageOK(m) && !m.isCcs && off + n <= |BodyOf(m)|
    ensures var h := HeaderOf(m).(fragOff := off, fragLen := n);
      HeaderOK(h) && ParseFragment(FragmentOf(m, off, n)) == Fragment(h, BodyOf(m)[off..off + n], [])
    ensures HeaderOf(m).msgLen == |BodyOf(m)|
  {
    var h := HeaderOf(m).(fragOff := off, fragLen := n);
    var body := BodyOf(m)[off..off + n];
    FragmentRoundTrip(h, body, []);
    assert EncHeader(h) + body + [] == FragmentOf(m, off, n);
  }

  /** A record of one slice is one fragment. */
  lemma TakeSlice(w: Window, l: Limits, m: Outgoing, off: nat, n: nat)
    requires w.Valid() && MessageOK(m) && !m.isCcs && off + n <= |BodyOf(m)|
    ensures var h := HeaderOf(m).(fragOff := off, fragLen := n);
      && HeaderOK(h) && h.msgLen == |BodyOf(m)|
      && TakeRecord(w, l, FragmentOf(m, off, n)) == TakeFragment(w, l, h, BodyOf(m)[off..off + n])
  {
    hide TakeFragment, ParseFragment;
    SliceParses(m, off, n);
    var h := HeaderOf(m).(fragOff := off, fragLen := n);
    var r := TakeFragment(w, l, h, BodyOf(m)[off..off + n]);
    assert TakeRecord(r.0, l, []) == (r.0, Accepted);
  }

  /** A record is a slice in one way only. */
  lemma SliceUnique(history: seq<Outgoing>, r: Record, k: nat, off: nat, n: nat, k': nat, off': nat, n': nat)
    requires HistoryOK(history) && SliceOf(history, r, k, off, n) && SliceOf(history, r, k', off', n')
    ensures k == k' && off == off' && n == n'
  {
    hide FragmentOf;
    assert Numbered(history[k], k) && Numbered(history[k'], k');
    SliceParses(history[k], off, n);
    SliceParses(history[k'], off', n');
  }

  lemma TakeAgrees(p: Partial, m: Outgoing, off: nat, n: nat)
    requires MessageOK(m) && !m.isCcs && off + n <= |BodyOf(m)| && Agrees(p, m)
    ensures Agrees(p.Take(off, BodyOf(m)[off..off + n]), m)
  {
    hide MessageOK, BodyOf;
  }

  lemma FreshAgrees(m: Outgoing)
    requires MessageOK(m) && !m.isCcs
    ensures Agrees(Partial(HeaderOf(m).typ, HeaderOf(m).msgLen, map[]), m)
  {
  }

  lemma TakenKeeps(p: Partial, h: Header, body: seq<Byte>)
    requires h.fragOff + |body| <= p.msgLen
    ensures forall i | i in p.got :: i in Taken(p, h, body).got
    ensures forall i :: h.fragOff <= i < h.fragOff + |body| ==> i in Taken(p, h, body).got
  {
  }

  /** A slice of message `k` meets the window: it is refused exactly when it is too long or, in epoch 1, not of the
      current message; otherwise the window still agrees with what was sent, and holds the slice unless it is old. */
  lemma SliceMeetsWindow(w: Window, l: Limits, history: seq<Outgoing>, k: nat, off: nat, n: nat)
    requires HistoryOK(history) && WindowAgrees(w, history) && k < |history|
    requires Numbered(history[k], k) && off + n <= |BodyOf(history[k])|
    ensures var t := TakeRecord(w, l, FragmentOf(history[k], off, n));
      && (t.1 == Accepted <==> |BodyOf(history[k])| <= l.maxLen && (l.epochOne ==> k == w.readSeq))
      && WindowAgrees(t.0, history) && t.0.readSeq == w.readSeq
      && (t.1 == Accepted && k >= w.readSeq ==> KeptSlice(t.0, k, off, n))
      && (forall j | j in w.pending :: j in t.0.pending && forall i | i in w.pending[j].got :: i in t.0.pending[j].got)
  {
    hide FragmentOf, BodyOf, MessageOK, Taken, Agrees;
    var m := history[k];
    var h, body := HeaderOf(m).(fragOff := off, fragLen := n), BodyOf(m)[off..off + n];
    TakeSlice(w, l, m, off, n);
    if k >= w.readSeq && h.msgLen <= l.maxLen && (l.epochOne ==> k == w.readSeq) {
      var p := Pending(w, h);
      FreshAgrees(m);
      PendingFits(p, m);
      TakenAgrees(p, m, h, off, n);
      TakenKeeps(p, h, body);
    }
  }

  lemma PendingFits(p: Partial, m: Outgoing)
    requires MessageOK(m) && !m.isCcs && Agrees(p, m)
    ensures p.typ == HeaderOf(m).typ && p.msgLen == HeaderOf(m).msgLen == |BodyOf(m)|
  {
  }

  lemma TakenAgrees(p: Partial, m: Outgoing, h: Header, off: nat, n: nat)
    requires MessageOK(m) && !m.isCcs && off + n <= |BodyOf(m)| && Agrees(p, m) && h.fragOff == off
    ensures Agrees(Taken(p, h, BodyOf(m)[off..off + n]), m)
  {
    hide Agrees, MessageOK, BodyOf;
    TakeAgrees(p, m, off, n);
  }

  // ----- every step keeps the invariant -----

  lemma {:induction false} HandshakeOnlyPart(messages: seq<Outgoing>)
    ensures |HandshakeOnly(messages)| <= |messages|
    ensures forall m | m in messages && !m.isCcs :: m in HandshakeOnly(messages)
  {
    if messages != [] { HandshakeOnlyPart(messages[1..]); }
  }

  lemma LongerHistory(history: seq<Outgoing>, more: seq<Outgoing>, w: Window, r: Record)
    requires HistoryOK(history) && HistoryOK(history + more)
    requires w.readSeq == |history| && !r.isCcs && FromHistory(history, r)
    ensures FromHistory(history + more, r) && Kept(w, history + more, r)
  {
    hide HistoryOK;
    var k: nat, off: nat, n: nat :| SliceOf(history, r, k, off, n);
    assert SliceOf(history + more, r, k, off, n);
    if !Kept(w, history + more, r) {
      var k': nat, off': nat, n': nat :| SliceOf(history + more, r, k', off', n') && k' >= w.readSeq;
      SliceUnique(history + more, r, k, off, n, k', off', n');
      assert false;
    }
  }

  lemma LongerHistoryWindow(history: seq<Outgoing>, more: seq<Outgoing>, w: Window)
    requires HistoryOK(history) && HistoryOK(history + more) && w.readSeq == |history| && WindowAgrees(w, history)
    requires |more| <= MAX_FLIGHT
    ensures WindowAgrees(w, history + more) && Texts(history + more, |history|) == Texts(history, |history|)
  {
    assert w.pending == map[];
  }

  lemma StartKeeps(s: State, messages: seq<Outgoing>)
    requires Inv(s) && Enabled(s, StartFlight(messages))
    ensures Inv(Step(s, StartFlight(messages)))
  {
    hide HistoryOK, WindowAgrees, FromHistory, Kept;
    var more := HandshakeOnly(messages);
    HandshakeOnlyPart(messages);
    WindowBounds(s);
    LongerHistoryWindow(s.history, more, s.window);
    forall p, r | p in s.network && r in p ensures FromHistory(s.history + more, r) {
      assert FromHistory(s.history, r);
      if r.isCcs { CcsFromAnywhere(s.history + more, r); } else { LongerHistory(s.history, more, s.window, r); }
    }
    forall r | r in s.heard ensures FromHistory(s.history + more, r) && Kept(s.window, s.history + more, r) {
      LongerHistory(s.history, more, s.window, r);
    }
  }

  lemma CcsFromAnywhere(history: seq<Outgoing>, r: Record)
    requires r.isCcs
    ensures FromHistory(history, r)
  {
  }

  lemma WindowBounds(s: State)
    requires Inv(s)
    ensures s.window.readSeq <= |s.history| <= s.window.readSeq + MAX_FLIGHT && |s.history| < 0x1_0000
  {
  }

  lemma SendKeeps(s: State, from: Pos, packet: seq<Record>)
    requires Inv(s) && Enabled(s, Send(from, packet))
    ensures Inv(Step(s, Send(from, packet)))
  {
    hide HistoryOK, WindowAgrees, FromHistory, Kept, SliceOf;
    forall r | r in packet ensures FromHistory(s.history, r) {
      if r.isCcs {
        CcsFromAnywhere(s.history, r);
      } else {
        var i :| 0 <= i < |packet| && packet[i] == r;
        var j, off, n := RecordsAreSlices(s.flight, from, packet, i);
        SliceOfSame(s.flight, s.history, r, j, off, n);
      }
    }
  }

  lemma SliceOfSame(flight: seq<Outgoing>, history: seq<Outgoing>, r: Record, j: nat, off: nat, n: nat)
    requires SliceOf(flight, r, j, off, n) && !r.isCcs && flight[j] in history
    ensures FromHistory(history, r)
  {
    var k :| 0 <= k < |history| && history[k] == flight[j];
    assert SliceOf(history, r, k, off, n);
  }

  /** What has been kept stays kept when the window only grows. */
  lemma KeptGrows(w: Window, w': Window, history: seq<Outgoing>, r: Record)
    requires Kept(w, history, r) && w'.readSeq >= w.readSeq
    requires forall j | j in w.pending && j >= w'.readSeq ::
      j in w'.pending && forall i | i in w.pending[j].got :: i in w'.pending[j].got
    ensures Kept(w', history, r)
  {
    forall k: nat, off: nat, n: nat | SliceOf(history, r, k, off, n) && k >= w'.readSeq ensures KeptSlice(w', k, off, n) {
      assert KeptSlice(w, k, off, n);
    }
  }

  lemma NewlyKept(w: Window, history: seq<Outgoing>, r: Record, k: nat, off: nat, n: nat)
    requires HistoryOK(history) && SliceOf(history, r, k, off, n) && (k >= w.readSeq ==> KeptSlice(w, k, off, n))
    ensures Kept(w, history, r)
  {
    hide HistoryOK, SliceOf;
    forall k': nat, off': nat, n': nat | SliceOf(history, r, k', off', n') && k' >= w.readSeq
      ensures KeptSlice(w, k', off', n')
    {
      SliceUnique(history, r, k, off, n, k', off', n');
    }
  }

  lemma ReceiveKeeps(s: State, packet: seq<Record>, i: nat, l: Limits)
    requires Inv(s) && Enabled(s, Receive(packet, i, l))
    ensures Inv(Step(s, Receive(packet, i, l)))
  {
    hide HistoryOK, WindowAgrees, Kept, TakeRecord, FragmentOf, MessageOK, BodyOf;
    var r := packet[i];
    assert FromHistory(s.history, r);
    if !r.isCcs {
      var k: nat, off: nat, n: nat :| SliceOf(s.history, r, k, off, n);
      NumberedAt(s.history, k);
      SliceMeetsWindow(s.window, l, s.history, k, off, n);
      var t := TakeRecord(s.window, l, r.plain);
      forall q | q in s.heard ensures Kept(t.0, s.history, q) { KeptGrows(s.window, t.0, s.history, q); }
      if t.1 == Accepted { NewlyKept(t.0, s.history, r, k, off, n); }
    }
  }

  lemma NumberedAt(history: seq<Outgoing>, k: nat)
    requires HistoryOK(history) && k < |history|
    ensures Numbered(history[k], k) && k < 0x1_0000
  {
  }

  /** A complete message that agrees with what was sent is what was sent. */
  lemma WholeIsSent(p: Partial, m: Outgoing, k: nat)
    requires k < 0x1_0000 && Numbered(m, k) && Agrees(p, m) && p.msgLen < 0x100_0000 && p.Complete()
    ensures WholeMessage(k, p) == m.data
  {
    hide EncHeader;
    ParsedIsWritten(m.data);
    assert p.Body() == BodyOf(m);
    assert m.data == EncHeader(HeaderOf(m)) + BodyOf(m) + [];
  }

  lemma ReadKeeps(s: State)
    requires Inv(s) && Enabled(s, Read)
    ensures Inv(Step(s, Read))
  {
    hide Kept, TakeRecord, FragmentOf, MessageOK, BodyOf, FromHistory, Agrees, WholeMessage;
    var k := s.window.readSeq;
    NumberedAt(s.history, k);
    WholeIsSent(s.window.pending[k], s.history[k], k);
    assert Texts(s.history, k + 1) == Texts(s.history, k) + [s.history[k].data];
    forall q | q in s.heard ensures Kept(s.window.Next(), s.history, q) {
      KeptGrows(s.window, s.window.Next(), s.history, q);
    }
  }

  // ----- whole runs -----

  /** A run from the initial state. */
  ghost predicate Run(states: seq<State>, actions: seq<Action>) {
    && |states| == |actions| + 1 && Init(states[0])
    && forall i :: 0 <= i < |actions| ==> Enabled(states[i], actions[i]) && states[i + 1] == Step(states[i], actions[i])
  }

  lemma StepKeeps(s: State, a: Action)
    requires Inv(s) && Enabled(s, a)
    ensures Inv(Step(s, a))
  {
    hide Inv, Enabled, Step;
    match a
    case StartFlight(messages) => StartKeeps(s, messages);
    case Send(from, packet) => SendKeeps(s, from, packet);
    case Receive(packet, i, limits) => ReceiveKeeps(s, packet, i, limits);
    case Read => ReadKeeps(s);
  }

  lemma {:induction false} RunKeeps(states: seq<State>, actions: seq<Action>, i: nat)
    requires Run(states, actions) && i < |states|
    ensures Inv(states[i])
  {
    hide Inv, Enabled, Step;
    if i == 0 {
      InitKeeps(states[0]);
    } else {
      RunKeeps(states, actions, i - 1);
      assert Enabled(states[i - 1], actions[i - 1]);
      StepKeeps(states[i - 1], actions[i - 1]);
    }
  }

  lemma InitKeeps(s: State)
    requires Init(s)
    ensures Inv(s)
  {
  }

  /** Safety: whatever the network does, what has been read is exactly the first messages that were sent, in
      order, each once and byte for byte. */
  lemma DeliveredInOrder(states: seq<State>, actions: seq<Action>)
    requires Run(states, actions)
    ensures var s := states[|actions|];
      && s.window.readSeq <= |s.history|
      && s.delivered == Texts(s.history, s.window.readSeq)
  {
    RunKeeps(states, actions, |actions|);
  }

  /** Outside epoch 1, nothing the network can bring is refused. */
  lemma NothingRefused(states: seq<State>, actions: seq<Action>, packet: seq<Record>, i: nat, l: Limits)
    requires Run(states, actions) && !l.epochOne
    requires forall m | m in states[|actions|].history :: |m.data| <= l.maxLen
    requires Enabled(states[|actions|], Receive(packet, i, l))
    ensures !Step(states[|actions|], Receive(packet, i, l)).failed
  {
    hide HistoryOK, WindowAgrees, Kept, TakeRecord, FragmentOf, BodyOf;
    var s, r := states[|actions|], packet[i];
    RunKeeps(states, actions, |actions|);
    assert FromHistory(s.history, r);
    if !r.isCcs {
      var k: nat, off: nat, n: nat :| SliceOf(s.history, r, k, off, n);
      NumberedAt(s.history, k);
      BodyShorter(s.history[k]);
      SliceMeetsWindow(s.window, l, s.history, k, off, n);
    }
  }

  lemma BodyShorter(m: Outgoing)
    requires MessageOK(m) && !m.isCcs
    ensures |BodyOf(m)| <= |m.data|
  {
  }

  /** Some complete sending of the current flight has been heard. */
  ghost predicate FlightHeard(s: State, rs: seq<Record>) {
    && PosOK(s.flight, Pos(0, 0)) && AdvanceAll(s.flight, Pos(0, 0), rs) == Some(Pos(|s.flight|, 0))
    && forall r | r in rs && !r.isCcs :: r in s.heard
  }

  /** Progress: once some complete sending of the flight has been heard, record by record, in any order and mixed
      with anything else, every message of it not yet read can be read. */
  lemma HeardIsReadable(states: seq<State>, actions: seq<Action>, rs: seq<Record>)
    requires Run(states, actions)
    requires var s := states[|actions|];
      !s.failed && s.window.readSeq < |s.history| && s.history[s.window.readSeq] in s.flight && FlightHeard(s, rs)
    ensures Enabled(states[|actions|], Read)
  {
    hide Inv, FlightHeard, Numbered;
    var s := states[|actions|];
    RunKeeps(states, actions, |actions|);
    var k := s.window.readSeq;
    ReadSeqNumbered(s);
    var j :| 0 <= j < |s.flight| && s.flight[j] == s.history[k];
    HeardIsKept(s, rs, j, k);
    PendingLength(s, k);
    forall i: nat | i < |BodyOf(s.history[k])| ensures i in s.window.pending[k].got {
      HeardByteIsKept(s, rs, j, k, i);
    }
  }

  lemma ReadSeqNumbered(s: State)
    requires Inv(s) && s.window.readSeq < |s.history|
    ensures var m := s.history[s.window.readSeq]; MessageOK(m) && !m.isCcs && s.window.Valid()
  {
    NumberedAt(s.history, s.window.readSeq);
  }

  lemma PendingLength(s: State, k: nat)
    requires Inv(s) && k in s.window.pending
    ensures k < |s.history| && MessageOK(s.history[k]) && !s.history[k].isCcs
    ensures s.window.pending[k].msgLen == |BodyOf(s.history[k])|
  {
  }

  lemma HeardSliceIsKept(s: State, r: Record, j: nat, k: nat, off: nat, n: nat)
    requires Inv(s) && r in s.heard && SliceOf(s.flight, r, j, off, n)
    requires s.window.readSeq <= k < |s.history| && s.history[k] == s.flight[j]
    ensures KeptSlice(s.window, k, off, n)
  {
    assert SliceOf(s.history, r, k, off, n);
    assert Kept(s.window, s.history, r);
  }

  lemma HeardIsKept(s: State, rs: seq<Record>, j: nat, k: nat)
    requires Inv(s) && FlightHeard(s, rs)
    requires s.window.readSeq <= k < |s.history| && j < |s.flight| && s.history[k] == s.flight[j] && !s.flight[j].isCcs
    ensures k in s.window.pending
  {
    hide Inv, AdvanceAll;
    var r := SomeRecord(s.flight, Pos(0, 0), rs, j);
    var off: nat, n: nat :| SliceOf(s.flight, r, j, off, n);
    HeardSliceIsKept(s, r, j, k, off, n);
  }

  lemma HeardByteIsKept(s: State, rs: seq<Record>, j: nat, k: nat, i: nat)
    requires Inv(s) && FlightHeard(s, rs)
    requires s.window.readSeq <= k < |s.history| && j < |s.flight| && s.history[k] == s.flight[j]
    requires MessageOK(s.flight[j]) && !s.flight[j].isCcs && i < |BodyOf(s.flight[j])|
    ensures k in s.window.pending && i in s.window.pending[k].got
  {
    hide Inv, AdvanceAll, SliceOf;
    var r, off, n := RecordWith(s.flight, Pos(0, 0), rs, j, i);
    HeardSliceIsKept(s, r, j, k, off, n);
  }
}
