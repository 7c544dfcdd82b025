/** `ssl_run_handshake`: the loop that resolves what the handshake waits for and runs its state machine again. */
module HandshakeDriver {
  import opened HandshakeScript
  import opened HandshakeRun
  import opened HandshakeProgress
  import HC = HandshakeClient
  import HS = HandshakeServer

  /** A handshake of either role, with the state machine `do_handshake` that goes with it. */
  datatype Hs = ClientHs(c: HC.Client) | ServerHs(s: HS.Server)

  function WaitOf(h: Hs): Wait {
    if h.ClientHs? then h.c.wait else h.s.wait
  }

  function PendingOf(h: Hs): seq<Item> {
    if h.ClientHs? then h.c.pending else h.s.pending
  }

  function IsDone(h: Hs): bool {
    WaitOf(h) == Ready && if h.ClientHs? then h.c.state.Done? else h.s.state.Done?
  }

  function Do(p: Params, h: Hs, retry: bool): Hs {
    match h
    case ClientHs(c) => ClientHs(HC.ClientDo(p, c, retry))
    case ServerHs(s) => ServerHs(HS.ServerDo(p, s, retry))
  }

  function ResolveHs(h: Hs, wire: seq<Item>, ch: Choice): (Hs, seq<Item>, seq<Item>) {
    match h
    case ClientHs(c) => var r := Resolve(c, wire, ch); (ClientHs(r.0), r.1, r.2)
    case ServerHs(s) => var r := Resolve(s, wire, ch); (ServerHs(r.0), r.1, r.2)
  }

  // ----- one side of a link -----

  function Own(client: bool, l: Link): Hs {
    if client then ClientHs(l.client) else ServerHs(l.server)
  }

  function Incoming(client: bool, l: Link): seq<Item> {
    if client then l.toClient else l.toServer
  }

  function StepOf(p: Params, client: bool, l: Link, ch: Choice): Link {
    if client then StepClient(p, l, ch) else StepServer(p, l, ch)
  }

  ghost predicate OwnStep(p: Params, client: bool, l: Link, l': Link) {
    exists ch :: l' == StepOf(p, client, l, ch)
  }

  /** Waiting to read with nothing there. */
  predicate Starved(client: bool, l: Link) {
    (WaitOf(Own(client, l)) == ReadMessage || WaitOf(Own(client, l)) == ReadCcs) && Incoming(client, l) == []
  }

  /** The `i`th link of a run is one at which the side is held up: it is to read with nothing there, or the step that led
      to it was an operation put off, whose wait is over now, or a flush that the transport did not finish. */
  ghost predicate HeldAt(client: bool, trace: seq<Link>, i: nat)
    requires i < |trace|
  {
    Starved(client, trace[i]) || PutOff(client, trace, i)
  }

  ghost predicate PutOff(client: bool, trace: seq<Link>, i: nat)
    requires i < |trace|
  {
    i > 0 && var w, w' := WaitOf(Own(client, trace[i - 1])), WaitOf(Own(client, trace[i]));
      (w == Paused && w' == Ready) || (w == Flush && w' == Flush)
  }

  /** Steps of one side, of which none but the last may lead to where it is held up. */
  ghost predicate Goes(p: Params, client: bool, trace: seq<Link>, from: Link, to: Link) {
    && |trace| > 0 && trace[0] == from && trace[|trace| - 1] == to
    && (forall i :: 0 <= i < |trace| - 1 ==> OwnStep(p, client, trace[i], trace[i + 1]))
    && (forall i :: 0 <= i < |trace| - 1 ==> !HeldAt(client, trace, i))
  }

  lemma GoesTo(p: Params, client: bool, trace: seq<Link>, from: Link, to: Link)
    requires Goes(p, client, trace, from, to)
    ensures |trace| > 0 && trace[|trace| - 1] == to
  {
  }

  /** Such steps are steps of the run of both sides. */
  lemma OwnStepsAreSteps(p: Params, client: bool, trace: seq<Link>, from: Link, to: Link)
    requires Goes(p, client, trace, from, to)
    ensures forall i :: 0 <= i < |trace| - 1 ==> Next(p, trace[i], trace[i + 1])
  {
    hide StepClient, StepServer, HeldAt;
    forall i | 0 <= i < |trace| - 1 ensures Next(p, trace[i], trace[i + 1]) {
      assert OwnStep(p, client, trace[i], trace[i + 1]);
    }
  }

  lemma Extend(p: Params, client: bool, trace: seq<Link>, from: Link, l: Link, l': Link, ch: Choice)
    returns (longer: seq<Link>)
    requires p.Agreed() && Inv(p, l) && Goes(p, client, trace, from, l) && !HeldAt(client, trace, |trace| - 1)
    requires l' == StepOf(p, client, l, ch)
    ensures longer == trace + [l'] && Goes(p, client, longer, from, l') && Inv(p, l')
    ensures var w, w' := WaitOf(Own(client, l)), WaitOf(Own(client, l'));
      PutOff(client, longer, |longer| - 1) <==> (w == Paused && w' == Ready) || (w == Flush && w' == Flush)
  {
    hide Inv, StepClient, StepServer, Starved;
    NextKeeps(p, l, l');
    longer := trace + [l'];
    assert OwnStep(p, client, l, l');
    forall i | 0 <= i < |longer| - 1 ensures !HeldAt(client, longer, i) && OwnStep(p, client, longer[i], longer[i + 1]) {
      assert HeldAt(client, longer, i) == HeldAt(client, trace, i);
      if i < |trace| - 1 { assert OwnStep(p, client, trace[i], trace[i + 1]); }
    }
  }

  /** A side that waits and is not held up does something. */
  lemma ResolveChanges(h: Hs, wire: seq<Item>, ch: Choice)
    requires WaitOf(h) == Paused || (WaitOf(h) == Flush && ch.flushed >= |PendingOf(h)|)
      || ((WaitOf(h) == ReadMessage || WaitOf(h) == ReadCcs) && wire != [])
    ensures var y := ResolveHs(h, wire, ch).0;
      && y != h && y.ClientHs? == h.ClientHs? && WaitOf(y) != Flush && WaitOf(y) != Paused
      && (WaitOf(h) == Paused ==> WaitOf(y) == Ready)
  {
  }

  lemma PartlyFlushed(h: Hs, wire: seq<Item>, ch: Choice)
    requires WaitOf(h) == Flush && ch.flushed < |PendingOf(h)|
    ensures var y := ResolveHs(h, wire, ch).0; y.ClientHs? == h.ClientHs? && WaitOf(y) == Flush && PendingOf(y) != []
  {
  }

  lemma DoingChanges(p: Params, client: bool, l: Link, ch: Choice)
    requires Inv(p, l) && WaitOf(Own(client, l)) == Ready && !IsDone(Own(client, l))
    requires ch == Choice(false, |PendingOf(Own(client, l))|)
    ensures StepOf(p, client, l, ch) != l
  {
    hide StepClient, StepServer, Inv;
    NotFailed(p, l);
    if StepOf(p, client, l, ch) == l {
      if client { ClientStopped(p, l, ch); } else { ServerStopped(p, l, ch); }
    }
  }

  class Driver {
    const client: bool
    var hs: Hs
    var incoming: seq<Item>
    var outgoing: seq<Item>

    constructor (client: bool)
      ensures this.client == client && hs == Own(client, Start()) && incoming == [] && outgoing == []
    {
      this.client := client;
      hs := Own(client, Start());
      incoming, outgoing := [], [];
    }

    /** The link, given the side at its other end. */
    ghost function Abs(peer: Hs): Link
      requires hs.ClientHs? == client && peer.ServerHs? == client
      reads this
    {
      if client then Link(hs.c, peer.s, outgoing, incoming) else Link(peer.c, hs.s, incoming, outgoing)
    }

    ghost predicate Going(p: Params, peer: Hs, from: Link, trace: seq<Link>)
      reads this
    {
      && hs.ClientHs? == client && peer.ServerHs? == client && |trace| > 0
      && Inv(p, Abs(peer)) && Goes(p, client, trace, from, Abs(peer))
    }

    /** Resolves what the handshake waits for, or finds it held up. */
    method ResolveWait(p: Params, ghost peer: Hs, ghost from: Link, ghost before: seq<Link>)
      returns (goOn: bool, ghost trace: seq<Link>)
      requires p.Agreed() && Going(p, peer, from, before) && !PutOff(client, before, |before| - 1) && WaitOf(hs) != Ready
      modifies this
      ensures Going(p, peer, from, trace)
      ensures goOn ==> Measure(p, Abs(peer)) < old(Measure(p, Abs(peer)))
      ensures if goOn then !PutOff(client, trace, |trace| - 1) else HeldAt(client, trace, |trace| - 1)
      ensures old(WaitOf(hs)) == Paused ==> !goOn
    {
      hide Inv, Measure, Resolve, PutOff, Goes;
      ghost var l := Abs(peer);
      NotFailed(p, l);
      GoesTo(p, client, before, from, l);
      if (WaitOf(hs) == ReadMessage || WaitOf(hs) == ReadCcs) && incoming == [] {
        return false, before;
      }
      // How much of the flight is written is up to the transport.
      var flushed: nat := *;
      var partly := WaitOf(hs) == Flush && flushed < |PendingOf(hs)|;
      var paused := WaitOf(hs) == Paused;
      var ch := Choice(false, flushed);
      if partly { PartlyFlushed(hs, incoming, ch); } else { ResolveChanges(hs, incoming, ch); }
      var r := ResolveHs(hs, incoming, ch);
      hs, incoming, outgoing := r.0, r.1, outgoing + r.2;
      assert Abs(peer) == StepOf(p, client, l, ch);
      trace := Extend(p, client, before, from, l, Abs(peer), ch);
      if partly || paused {
        return false, trace;
      }
      StepDecreases(p, l, Abs(peer), ch);
      goOn := true;
    }

    /** Runs one state function; an operation of the application may be put off. */
    method RunState(p: Params, ghost peer: Hs, ghost from: Link, ghost before: seq<Link>)
      returns (goOn: bool, ghost trace: seq<Link>)
      requires p.Agreed() && Going(p, peer, from, before) && !PutOff(client, before, |before| - 1)
      requires WaitOf(hs) == Ready && !IsDone(hs)
      modifies this
      ensures Going(p, peer, from, trace) && !PutOff(client, trace, |trace| - 1)
      ensures goOn ==> Measure(p, Abs(peer)) < old(Measure(p, Abs(peer)))
      ensures !goOn ==> WaitOf(hs) == Paused
    {
      hide Inv, Measure, HC.ClientDo, HS.ServerDo;
      ghost var l := Abs(peer);
      var retry: bool := *;
      var y := Do(p, hs, true);
      if retry && WaitOf(y) == Paused {
        hs := y;
        trace := Extend(p, client, before, from, l, Abs(peer), Choice(true, 0));
        return false, trace;
      }
      ghost var ch := Choice(false, |PendingOf(hs)|);
      DoingChanges(p, client, l, ch);
      hs := Do(p, hs, false);
      trace := Extend(p, client, before, from, l, Abs(peer), ch);
      StepDecreases(p, l, Abs(peer), ch);
      goOn := true;
    }

    /** Runs until the handshake is done or first held up: by an operation of the application that is put off, by a flight
        that the transport does not take whole, or by nothing being there to read. Every turn is a step of `HandshakeRun`
        by this side, so a call that is held up and taken up again is a run like any other. */
    method Run(p: Params, ghost peer: Hs) returns (done: bool, ghost trace: seq<Link>)
      requires p.Agreed() && hs.ClientHs? == client && peer.ServerHs? == client && Inv(p, Abs(peer))
      modifies this
      ensures Going(p, peer, old(Abs(peer)), trace)
      ensures if done then IsDone(hs) else HeldAt(client, trace, |trace| - 1)
    {
      hide Inv, Measure, Goes, HeldAt;
      trace := [Abs(peer)];
      NoSteps(p, client, Abs(peer));
      while !IsDone(hs)
        invariant Going(p, peer, old(Abs(peer)), trace) && !PutOff(client, trace, |trace| - 1)
        decreases Measure(p, Abs(peer))
      {
        var goOn: bool;
        if WaitOf(hs) == Ready {
          goOn, trace := RunState(p, peer, old(Abs(peer)), trace);
        } else {
          goOn, trace := ResolveWait(p, peer, old(Abs(peer)), trace);
          if !goOn {
            return false, trace;
          }
        }
        if !goOn {
          // The caller is told, and the wait is over when it calls again.
          goOn, trace := ResolveWait(p, peer, old(Abs(peer)), trace);
          return false, trace;
        }
      }
      done := true;
    }
  }

  lemma NoSteps(p: Params, client: bool, l: Link)
    ensures Goes(p, client, [l], l, l) && !PutOff(client, [l], 0)
  {
  }
}
