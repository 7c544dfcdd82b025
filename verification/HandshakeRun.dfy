/** A client and a server over a reliable ordered connection, with `ssl_run_handshake` on both sides: every way the
    calls can interleave, block and be taken up again. */
module HandshakeRun {
  import opened Bits
  import opened HandshakeScript
  import HandshakeClient
  import HandshakeServer

  datatype Link = Link(client: HandshakeClient.Client, server: HandshakeServer.Server, toServer: seq<Item>,
      toClient: seq<Item>)

  /** What is up to the environment in a step: an operation not finished yet, and how much of a flight is written. */
  datatype Choice = Choice(retry: bool, flushed: nat)

  /** One resolution of `hs->wait`: the side, what is left to come in, and what goes out. */
  function Resolve<S>(x: Side<S>, wire: seq<Item>, ch: Choice): (Side<S>, seq<Item>, seq<Item>) {
    match x.wait
    case Flush =>
      if ch.flushed < |x.pending| then (x.(pending := x.pending[ch.flushed..]), wire, x.pending[..ch.flushed])
      else (Await(x.(pending := []), Ready), wire, x.pending)
    case ReadMessage =>
      if wire == [] then (x, wire, [])
      else if wire[0].Ccs? then (Await(x, Failed), wire[1..], [])
      else (Await(x.(inbuf := Some(wire[0].msg)), Ready), wire[1..], [])
    case ReadCcs =>
      if wire == [] then (x, wire, [])
      else if wire[0].Handshake? then (Await(x, Failed), wire[1..], [])
      else (Await(x, Ready), wire[1..], [])
    case Paused => (Await(x, Ready), wire, [])
    case Ready => (x, wire, [])
    case Failed => (x, wire, [])
  }

  function StepClient(p: Params, l: Link, ch: Choice): Link {
    if l.client.wait == Ready then l.(client := HandshakeClient.ClientDo(p, l.client, ch.retry))
    else
      var r := Resolve(l.client, l.toClient, ch);
      l.(client := r.0, toClient := r.1, toServer := l.toServer + r.2)
  }

  function StepServer(p: Params, l: Link, ch: Choice): Link {
    if l.server.wait == Ready then l.(server := HandshakeServer.ServerDo(p, l.server, ch.retry))
    else
      var r := Resolve(l.server, l.toServer, ch);
      l.(server := r.0, toServer := r.1, toClient := l.toClient + r.2)
  }

  ghost predicate Next(p: Params, l: Link, l': Link) {
    exists ch :: l' == StepClient(p, l, ch) || l' == StepServer(p, l, ch)
  }

  function Start(): Link {
    Link(Side(HandshakeClient.StartConnect, Ready, None, [], [], false, []),
         Side(HandshakeServer.StartAccept, Ready, None, [], [], false, []), [], [])
  }

  function CAt(p: Params, l: Link): nat { HandshakeClient.ClientAt(p, l.client) }

  function SAt(p: Params, l: Link): nat { HandshakeServer.ServerAt(p, l.server) }

  // ----- the invariant -----

  ghost predicate Inv(p: Params, l: Link) {
    && HandshakeClient.ClientOK(p, l.client) && Along(p, l.client, CAt(p, l), true)
    && HandshakeServer.ServerOK(p, l.server) && Along(p, l.server, SAt(p, l), false)
    && InFlight(p, CAt(p, l), SAt(p, l), true,
                InBuffer(l.client) + l.toClient + l.server.pending, InBuffer(l.server) + l.toServer + l.client.pending)
  }

  lemma Bounds(p: Params, l: Link)
    requires Inv(p, l)
    ensures CAt(p, l) <= Length(p) && SAt(p, l) <= Length(p)
  {
  }

  lemma StartInv(p: Params)
    requires p.Agreed()
    ensures Inv(p, Start())
  {
  }

  lemma Turned(p: Params, a: nat, peer: nat, client: bool, incoming: seq<Item>, outgoing: seq<Item>)
    requires a <= Length(p) && peer <= Length(p) && InFlight(p, a, peer, client, incoming, outgoing)
    ensures InFlight(p, peer, a, !client, outgoing, incoming)
  {
  }

  /** A call of a state function keeps what is in flight between the places. */
  lemma MovesInFlight<S>(p: Params, x: Side<S>, y: Side<S>, a: nat, b: nat, peer: nat, client: bool, wireIn: seq<Item>,
      wireOut: seq<Item>)
    requires a <= Length(p) && peer <= Length(p) && Moves(p, x, y, a, b, client)
    requires InFlight(p, a, peer, client, InBuffer(x) + wireIn, wireOut + x.pending)
    ensures b <= Length(p) && InFlight(p, b, peer, client, InBuffer(y) + wireIn, wireOut + y.pending)
  {
    hide InFlight, OneSided, Between;
    if Sends(p, x, y, a, b, client) {
      SendingInFlight(p, a, b, peer, client, InBuffer(x) + wireIn, wireOut + x.pending);
      assert wireOut + x.pending + Between(p, a, b) == wireOut + y.pending;
    } else {
      TakingInFlight(p, a, peer, client, Handshake(x.inbuf.value), wireIn, wireOut + x.pending);
      assert InBuffer(y) + wireIn == wireIn;
    }
  }

  /** The message in the buffer is the first of what is to come in. */
  lemma BufferIsFront<S>(p: Params, x: Side<S>, a: nat, peer: nat, wireIn: seq<Item>)
    requires peer <= Length(p) && InBuffer(x) + wireIn == Between(p, a, peer)
    ensures Buffered(p, x, a, peer)
  {
  }

  lemma ClientDoes(p: Params, l: Link, ch: Choice)
    requires p.Agreed() && Inv(p, l) && l.client.wait == Ready
    ensures Inv(p, StepClient(p, l, ch))
  {
    hide HandshakeClient.ClientOK, HandshakeServer.ServerOK, Along, OneSided, Between, Moves, HandshakeClient.ClientDo,
      HandshakeClient.ClientAt, HandshakeServer.ServerAt;
    var x, a, s := l.client, CAt(p, l), SAt(p, l);
    var wireIn, wireOut := l.toClient + l.server.pending, InBuffer(l.server) + l.toServer;
    Bounds(p, l);
    assert InBuffer(x) + l.toClient + l.server.pending == InBuffer(x) + wireIn;
    BufferIsFront(p, x, a, s, wireIn);
    HandshakeClient.ClientNeverRejects(p, x, ch.retry, s);
    var y := HandshakeClient.ClientDo(p, x, ch.retry);
    MovesInFlight(p, x, y, a, HandshakeClient.ClientAt(p, y), s, true, wireIn, wireOut);
    assert InBuffer(y) + l.toClient + l.server.pending == InBuffer(y) + wireIn;
  }

  lemma ServerDoes(p: Params, l: Link, ch: Choice)
    requires p.Agreed() && Inv(p, l) && l.server.wait == Ready
    ensures Inv(p, StepServer(p, l, ch))
  {
    hide HandshakeClient.ClientOK, HandshakeServer.ServerOK, Along, OneSided, Between, Moves, HandshakeServer.ServerDo,
      HandshakeClient.ClientAt, HandshakeServer.ServerAt, InFlight;
    var x, a, c := l.server, SAt(p, l), CAt(p, l);
    var wireIn, wireOut := l.toServer + l.client.pending, InBuffer(l.client) + l.toClient;
    Bounds(p, l);
    assert InBuffer(x) + l.toServer + l.client.pending == InBuffer(x) + wireIn;
    Turned(p, c, a, true, wireOut + x.pending, InBuffer(x) + wireIn);
    InFlightIs(p, a, c, false, InBuffer(x) + wireIn, wireOut + x.pending);
    BufferIsFront(p, x, a, c, wireIn);
    HandshakeServer.ServerNeverRejects(p, x, ch.retry, c);
    var y := HandshakeServer.ServerDo(p, x, ch.retry);
    var b := HandshakeServer.ServerAt(p, y);
    MovesInFlight(p, x, y, a, b, c, false, wireIn, wireOut);
    assert InBuffer(y) + l.toServer + l.client.pending == InBuffer(y) + wireIn;
    Turned(p, b, c, false, InBuffer(y) + wireIn, wireOut + y.pending);
  }

  lemma InFlightIs(p: Params, a: nat, peer: nat, client: bool, incoming: seq<Item>, outgoing: seq<Item>)
    requires a <= Length(p) && peer <= Length(p) && InFlight(p, a, peer, client, incoming, outgoing)
    ensures incoming == Between(p, a, peer) && outgoing == Between(p, peer, a)
  {
  }

  /** Flushing part or all of a flight only moves it to the wire. */
  lemma FlushMoves(pending: seq<Item>, wireOut: seq<Item>, front: seq<Item>, n: nat)
    requires n <= |pending|
    ensures front + (wireOut + pending[..n]) + pending[n..] == front + wireOut + pending
  {
    assert pending[..n] + pending[n..] == pending;
  }

  /** What has arrived at a waiting side is what it waits for. */
  lemma ArrivedIsNext(p: Params, a: nat, n: nat, peer: nat, wire: seq<Item>, rest: seq<Item>)
    requires a <= Length(p) && peer <= Length(p) && NextIs(p, a, n)
    requires wire != [] && [] + wire + rest == Between(p, a, peer)
    ensures wire[0] == ItemAt(p, n)
  {
    hide Between, ItemAt, NextIs;
    HeadIsNext(p, a, n, peer);
    assert ([] + wire + rest)[0] == wire[0];
  }

  lemma ItemIsCcs(p: Params, n: nat)
    requires n < Length(p)
    ensures ItemAt(p, n).Ccs? <==> Place(p, n) == CCcs || Place(p, n) == SCcs
  {
  }

  /** A message goes from the wire to the buffer. */
  lemma ReadMoves(wire: seq<Item>, rest: seq<Item>)
    requires wire != []
    ensures [wire[0]] + wire[1..] + rest == [] + wire + rest
  {
    assert [wire[0]] + wire[1..] == wire;
  }

  /** A ChangeCipherSpec is taken off the wire: the side steps over its place. */
  lemma CcsTaken<S>(p: Params, x: Side<S>, y: Side<S>, a: nat, peer: nat, client: bool, wire: seq<Item>, rest: seq<Item>,
      outgoing: seq<Item>)
    requires a < Length(p) && peer <= Length(p) && wire != [] && UsedAt(p, a) && wire[0] == ItemAt(p, a) && wire[0].Ccs?
    requires FromClient(Place(p, a)) == !client
    requires Along(p, x, a, client) && y.transcript == x.transcript && y.log == x.log
    requires InFlight(p, a, peer, client, [] + wire + rest, outgoing)
    ensures Along(p, y, a + 1, client) && InFlight(p, a + 1, peer, client, [] + wire[1..] + rest, outgoing)
  {
    hide Between, ItemAt, UsedAt, Place, InFlight, FromClient, Hashed, OwnItems;
    StepOn(p, a);
    assert [] + wire + rest == [wire[0]] + (wire[1..] + rest);
    TakingInFlight(p, a, peer, client, wire[0], wire[1..] + rest, outgoing);
    assert [] + wire[1..] + rest == wire[1..] + rest;
  }

  /** The side itself after its wait is resolved: still fine, and at the same place, except past a ChangeCipherSpec. */
  /** What a resolution leaves as it was: all but the wait, the buffer it was to fill and the flight it was to flush. */
  lemma ResolveCases<S>(x: Side<S>, wire: seq<Item>, ch: Choice)
    requires x.wait != Ready && x.wait != Failed
    requires x.wait == ReadMessage && wire != [] ==> wire[0].Handshake?
    requires x.wait == ReadCcs && wire != [] ==> wire[0].Ccs?
    ensures var y := Resolve(x, wire, ch).0;
      && y.state == x.state && y.flag == x.flag && y.transcript == x.transcript && y.log == x.log
      && (y.wait == Ready || (y.wait == x.wait && y.inbuf == x.inbuf))
      && (x.wait == ReadCcs ==> (y.wait == Ready <==> wire != []))
      && (x.wait != ReadMessage ==> y.inbuf == x.inbuf) && (y.inbuf == None ==> x.inbuf == None || x.wait == ReadMessage)
      && (if x.wait == Flush then y.wait == Ready ==> y.pending == [] else y.pending == x.pending)
  {
  }

  lemma ClientResolved(p: Params, x: HandshakeClient.Client, wire: seq<Item>, ch: Choice)
    requires HandshakeClient.ClientOK(p, x) && x.wait != Ready
    requires x.wait == ReadMessage && wire != [] ==> wire[0].Handshake?
    requires x.wait == ReadCcs && wire != [] ==> wire[0].Ccs?
    ensures var y := Resolve(x, wire, ch).0;
      && HandshakeClient.ClientOK(p, y) && y.transcript == x.transcript && y.log == x.log
      && HandshakeClient.ClientAt(p, y) == HandshakeClient.ClientAt(p, x)
         + (if x.wait == ReadCcs && wire != [] then 1 else 0)
  {
    hide Length, HandshakeClient.FullOnly, Resolve;
    ResolveCases(x, wire, ch);
  }

  lemma ServerResolved(p: Params, x: HandshakeServer.Server, wire: seq<Item>, ch: Choice)
    requires HandshakeServer.ServerOK(p, x) && x.wait != Ready
    requires x.wait == ReadMessage && wire != [] ==> wire[0].Handshake?
    requires x.wait == ReadCcs && wire != [] ==> wire[0].Ccs?
    ensures var y := Resolve(x, wire, ch).0;
      && HandshakeServer.ServerOK(p, y) && y.transcript == x.transcript && y.log == x.log
      && HandshakeServer.ServerAt(p, y) == HandshakeServer.ServerAt(p, x)
         + (if x.wait == ReadCcs && wire != [] then 1 else 0)
  {
    hide Length, HandshakeServer.FullOnly, Resolve;
    ResolveCases(x, wire, ch);
  }

  /** Resolving a wait keeps what is in flight between the places. */
  lemma ResolveInFlight<S>(p: Params, x: Side<S>, a: nat, n: nat, peer: nat, client: bool, wire: seq<Item>,
      rest: seq<Item>,
                           front: seq<Item>, wireOut: seq<Item>, ch: Choice)
    requires a <= Length(p) && peer <= Length(p) && x.wait != Ready && Along(p, x, a, client)
    requires x.wait == ReadMessage || x.wait == ReadCcs ==>
      x.inbuf == None && NextIs(p, a, n) && FromClient(Place(p, n)) == !client
    requires x.wait == ReadMessage ==> Place(p, n) != CCcs && Place(p, n) != SCcs
    requires x.wait == ReadCcs ==> n == a && Place(p, n) in {CCcs, SCcs}
    requires InFlight(p, a, peer, client, InBuffer(x) + wire + rest, front + wireOut + x.pending)
    ensures x.wait == ReadMessage && wire != [] ==> wire[0].Handshake?
    ensures x.wait == ReadCcs && wire != [] ==> wire[0].Ccs?
    ensures var r, b := Resolve(x, wire, ch), a + (if x.wait == ReadCcs && wire != [] then 1 else 0);
      && b <= Length(p) && Along(p, x, b, client)
      && InFlight(p, b, peer, client, InBuffer(r.0) + r.1 + rest, front + (wireOut + r.2) + r.0.pending)
  {
    hide Between, ItemAt, Place, InFlight, FromClient, Hashed, OwnItems, UsedAt;
    if x.wait == Flush {
      FlushMoves(x.pending, wireOut, front, if ch.flushed < |x.pending| then ch.flushed else |x.pending|);
      assert x.pending[..|x.pending|] == x.pending;
    } else if x.wait == ReadMessage && wire != [] {
      InFlightIs(p, a, peer, client, [] + wire + rest, front + wireOut + x.pending);
      ArrivedIsNext(p, a, n, peer, wire, rest);
      ItemIsCcs(p, n);
      ReadMoves(wire, rest);
    } else if x.wait == ReadCcs && wire != [] {
      InFlightIs(p, a, peer, client, [] + wire + rest, front + wireOut + x.pending);
      ArrivedIsNext(p, a, n, peer, wire, rest);
      ItemIsCcs(p, n);
      CcsTaken(p, x, x, a, peer, client, wire, rest, front + wireOut + x.pending);
    }
    assert wireOut + [] == wireOut;
  }

  lemma ClientResolves(p: Params, l: Link, ch: Choice)
    requires p.Agreed() && Inv(p, l) && l.client.wait != Ready
    ensures Inv(p, StepClient(p, l, ch))
  {
    hide HandshakeClient.ClientOK, HandshakeServer.ServerOK, Along, Between, InFlight, NextIs, Place,
      HandshakeClient.ClientAt, HandshakeServer.ServerAt, Resolve, FromClient;
    var x, a, s := l.client, CAt(p, l), SAt(p, l);
    Bounds(p, l);
    ClientWaits(p, x);
    var n: nat := 0;
    if x.wait == ReadMessage || x.wait == ReadCcs { n := HandshakeClient.ClientNext(p, x); }
    OwnCcs(p);
    ResolveInFlight(p, x, a, n, s, true, l.toClient, l.server.pending, InBuffer(l.server), l.toServer, ch);
    ClientResolved(p, x, l.toClient, ch);
    AlongSame(p, x, Resolve(x, l.toClient, ch).0, HandshakeClient.ClientAt(p, Resolve(x, l.toClient, ch).0), true);
  }

  lemma ClientWaits(p: Params, x: HandshakeClient.Client)
    requires HandshakeClient.ClientOK(p, x)
    ensures x.wait == ReadMessage || x.wait == ReadCcs ==> x.inbuf == None
  {
  }

  lemma ServerWaits(p: Params, x: HandshakeServer.Server)
    requires HandshakeServer.ServerOK(p, x)
    ensures x.wait == ReadMessage || x.wait == ReadCcs ==> x.inbuf == None
  {
  }

  lemma OwnCcs(p: Params)
    ensures forall n: nat :: n < Length(p) ==>
      (Place(p, n) == CCcs ==> FromClient(Place(p, n))) && (Place(p, n) == SCcs ==> !FromClient(Place(p, n)))
  {
    hide Place;
  }

  lemma AlongSame<S>(p: Params, x: Side<S>, y: Side<S>, at: nat, client: bool)
    requires Along(p, x, at, client) && y.transcript == x.transcript && y.log == x.log
    ensures Along(p, y, at, client)
  {
  }

  lemma ServerResolves(p: Params, l: Link, ch: Choice)
    requires p.Agreed() && Inv(p, l) && l.server.wait != Ready
    ensures Inv(p, StepServer(p, l, ch))
  {
    hide HandshakeClient.ClientOK, HandshakeServer.ServerOK, Along, Between, InFlight, NextIs, Place,
      HandshakeClient.ClientAt, HandshakeServer.ServerAt, Resolve, FromClient;
    var x, a, c := l.server, SAt(p, l), CAt(p, l);
    Bounds(p, l);
    ServerWaits(p, x);
    var n: nat := 0;
    if x.wait == ReadMessage || x.wait == ReadCcs { n := HandshakeServer.ServerNext(p, x); }
    OwnCcs(p);
    Turned(p, c, a, true, InBuffer(l.client) + l.toClient + x.pending, InBuffer(x) + l.toServer + l.client.pending);
    ResolveInFlight(p, x, a, n, c, false, l.toServer, l.client.pending, InBuffer(l.client), l.toClient, ch);
    ServerResolved(p, x, l.toServer, ch);
    var r := Resolve(x, l.toServer, ch);
    var b := HandshakeServer.ServerAt(p, r.0);
    AlongSame(p, x, r.0, b, false);
    Turned(p, b, c, false, InBuffer(r.0) + r.1 + l.client.pending, InBuffer(l.client) + (l.toClient + r.2) + r.0.pending);
  }

  // ----- whole runs -----

  ghost predicate Run(p: Params, links: seq<Link>) {
    |links| > 0 && links[0] == Start() && forall i :: 0 <= i < |links| - 1 ==> Next(p, links[i], links[i + 1])
  }

  lemma NextKeeps(p: Params, l: Link, l': Link)
    requires p.Agreed() && Inv(p, l) && Next(p, l, l')
    ensures Inv(p, l')
  {
    hide Inv, StepClient, StepServer;
    var ch :| l' == StepClient(p, l, ch) || l' == StepServer(p, l, ch);
    if l' == StepClient(p, l, ch) {
      if l.client.wait == Ready { ClientDoes(p, l, ch); } else { ClientResolves(p, l, ch); }
    } else {
      if l.server.wait == Ready { ServerDoes(p, l, ch); } else { ServerResolves(p, l, ch); }
    }
  }

  lemma {:induction false} RunKeeps(p: Params, links: seq<Link>, i: nat)
    requires p.Agreed() && Run(p, links) && i < |links|
    ensures Inv(p, links[i])
  {
    hide Inv, Next, Start;
    if i == 0 {
      StartInv(p);
    } else {
      RunKeeps(p, links, i - 1);
      NextKeeps(p, links[i - 1], links[i]);
    }
  }

  /** No message type is ever rejected, no Finished ever fails its check, and no side queues anything twice. */
  lemma HandshakeIsCompatible(p: Params, links: seq<Link>, i: nat)
    requires p.Agreed() && Run(p, links) && i < |links|
    ensures links[i].client.wait != Failed && links[i].server.wait != Failed
    ensures NoRepeats(links[i].client.log) && NoRepeats(links[i].server.log)
  {
    hide Length, OwnItems, Between, OneSided, Hashed, HandshakeClient.ClientAt, HandshakeServer.ServerAt;
    RunKeeps(p, links, i);
    var l := links[i];
    NothingTwice(p, CAt(p, l), true);
    NothingTwice(p, SAt(p, l), false);
  }

  /** Both sides have hashed the same: one transcript is always the beginning of the other, the Finished that a side is
      about to check has hashed what that side has hashed, and at the end the transcripts are equal. */
  lemma TranscriptsAgree(p: Params, links: seq<Link>, i: nat)
    requires p.Agreed() && Run(p, links) && i < |links|
    ensures var c, s := links[i].client, links[i].server;
      && (c.transcript <= s.transcript || s.transcript <= c.transcript)
      && (c.state.ReadServerFinished? && c.inbuf.Some? ==>
            c.inbuf.value.typ == Finished && c.inbuf.value.hashed == c.transcript)
      && (s.state.ReadClientFinished? && s.inbuf.Some? ==>
            s.inbuf.value.typ == Finished && s.inbuf.value.hashed == s.transcript)
      && (c.state.Done? && s.state.Done? ==> c.transcript == s.transcript)
  {
    hide Hashed, Between, OwnItems, OneSided, ItemAt, Place;
    RunKeeps(p, links, i);
    var l := links[i];
    var a, b := CAt(p, l), SAt(p, l);
    Bounds(p, l);
    HashedPrefix(p, if a <= b then a else b, if a <= b then b else a);
    if l.client.state.ReadServerFinished? && l.client.inbuf.Some? { CheckedByClient(p, l); }
    if l.server.state.ReadClientFinished? && l.server.inbuf.Some? { CheckedByServer(p, l); }
  }

  lemma CheckedByClient(p: Params, l: Link)
    requires p.Agreed() && Inv(p, l) && l.client.state.ReadServerFinished? && l.client.inbuf.Some?
    ensures l.client.inbuf.value.typ == Finished && l.client.inbuf.value.hashed == l.client.transcript
  {
    hide Hashed, Between, OwnItems, OneSided, ItemAt, HandshakeServer.ServerOK, HandshakeServer.ServerAt;
    Bounds(p, l);
    var a, s := CAt(p, l), SAt(p, l);
    assert InBuffer(l.client) + l.toClient + l.server.pending == InBuffer(l.client) + (l.toClient + l.server.pending);
    BufferIsFront(p, l.client, a, s, l.toClient + l.server.pending);
    ReadOn(p, l.client, a, true, s);
  }

  lemma CheckedByServer(p: Params, l: Link)
    requires p.Agreed() && Inv(p, l) && l.server.state.ReadClientFinished? && l.server.inbuf.Some?
    ensures l.server.inbuf.value.typ == Finished && l.server.inbuf.value.hashed == l.server.transcript
  {
    hide Hashed, Between, OwnItems, OneSided, ItemAt, HandshakeClient.ClientOK, HandshakeClient.ClientAt;
    Bounds(p, l);
    var a, c := SAt(p, l), CAt(p, l);
    assert InBuffer(l.server) + l.toServer + l.client.pending == InBuffer(l.server) + (l.toServer + l.client.pending);
    BufferIsFront(p, l.server, a, c, l.toServer + l.client.pending);
    ReadOn(p, l.server, a, false, c);
  }

  /** Nothing can happen any more, whatever the environment does. */
  ghost predicate Stopped(p: Params, l: Link) {
    forall ch :: StepClient(p, l, ch) == l && StepServer(p, l, ch) == l
  }

  lemma ClientStopped(p: Params, l: Link, ch: Choice)
    requires StepClient(p, l, ch) == l && ch == Choice(false, |l.client.pending|) && l.client.wait != Failed
    ensures ClientIdle(l)
  {
  }

  lemma ServerStopped(p: Params, l: Link, ch: Choice)
    requires StepServer(p, l, ch) == l && ch == Choice(false, |l.server.pending|) && l.server.wait != Failed
    ensures ServerIdle(l)
  {
  }

  /** A run can stop only with both sides done and nothing left on the wire. */
  lemma StopsOnlyWhenDone(p: Params, links: seq<Link>)
    requires p.Agreed() && Run(p, links) && Stopped(p, links[|links| - 1])
    ensures var l := links[|links| - 1];
      l.client.state.Done? && l.server.state.Done? && l.toServer == [] && l.toClient == []
  {
    hide StepClient, StepServer, Inv;
    var l := links[|links| - 1];
    RunKeeps(p, links, |links| - 1);
    NotFailed(p, l);
    ClientStopped(p, l, Choice(false, |l.client.pending|));
    ServerStopped(p, l, Choice(false, |l.server.pending|));
    StoppedIsDone(p, l);
  }

  lemma NotFailed(p: Params, l: Link)
    requires Inv(p, l)
    ensures l.client.wait != Failed && l.server.wait != Failed
  {
  }

  predicate ClientIdle(l: Link) {
    || (l.client.state.Done? && l.client.wait == Ready)
    || ((l.client.wait == ReadMessage || l.client.wait == ReadCcs) && l.toClient == [])
  }

  predicate ServerIdle(l: Link) {
    || (l.server.state.Done? && l.server.wait == Ready)
    || ((l.server.wait == ReadMessage || l.server.wait == ReadCcs) && l.toServer == [])
  }

  /** An idle side has flushed all it had, and nothing is left of what has been sent to it. */
  lemma IdleIsEmpty(p: Params, l: Link)
    requires p.Agreed() && Inv(p, l) && ClientIdle(l) && ServerIdle(l)
    ensures CAt(p, l) <= Length(p) && SAt(p, l) <= Length(p)
    ensures Between(p, CAt(p, l), SAt(p, l)) == [] && Between(p, SAt(p, l), CAt(p, l)) == []
    ensures l.toServer == [] && l.toClient == []
  {
    hide Hashed, OwnItems, OneSided, ItemAt, Place, FromClient;
    Bounds(p, l);
    BetweenNone(p);
  }

  lemma SameNext(p: Params, a: nat, b: nat, n: nat, m: nat)
    requires NextIs(p, a, n) && NextIs(p, b, m) && a <= m && b <= n
    ensures n == m
  {
  }

  lemma StoppedIsDone(p: Params, l: Link)
    requires p.Agreed() && Inv(p, l) && ClientIdle(l) && ServerIdle(l)
    ensures l.client.state.Done? && l.server.state.Done? && l.toServer == [] && l.toClient == []
  {
    hide Hashed, Between, OwnItems, OneSided, ItemAt, Place, NextIs, FromClient, Inv;
    IdleIsEmpty(p, l);
    Places(p, l);
    var a, b := CAt(p, l), SAt(p, l);
    var n: nat, m: nat := 0, 0;
    if !l.client.state.Done? {
      n := HandshakeClient.ClientNext(p, l.client);
      HeadIsNext(p, a, n, b);
      assert b <= n;
      NextBelow(p, a, n);
    }
    if !l.server.state.Done? {
      m := HandshakeServer.ServerNext(p, l.server);
      HeadIsNext(p, b, m, a);
      assert a <= m;
      NextBelow(p, b, m);
    }
    if !l.client.state.Done? && !l.server.state.Done? {
      SameNext(p, a, b, n, m);
      assert false;
    }
  }

  lemma NextBelow(p: Params, i: nat, n: nat)
    requires NextIs(p, i, n)
    ensures n < Length(p)
  {
  }

  lemma Places(p: Params, l: Link)
    requires Inv(p, l)
    ensures HandshakeClient.ClientOK(p, l.client) && HandshakeServer.ServerOK(p, l.server)
    ensures l.client.state.Done? ==> CAt(p, l) == Length(p)
    ensures l.server.state.Done? ==> SAt(p, l) == Length(p)
  {
    hide InFlight, Along, HandshakeClient.ClientOK, HandshakeServer.ServerOK;
  }
}
