/** A handshake comes to its end: steps that are neither blocked nor put off are bounded in number. */
module HandshakeProgress {
  import opened Bits
  import opened HandshakeScript
  import opened HandshakeRun
  import HC = HandshakeClient
  import HS = HandshakeServer

  /** How far the client is from its last state, in the order in which it goes through them. */
  function ClientLeft(p: Params, s: HC.ClientState): nat {
    match s
    case StartConnect => 18
    case EnterEarlyData => 17
    case ReadServerHello => 16
    case ReadServerCertificate => 15
    case ReadCertificateStatus => 14
    case VerifyServerCertificate => 13
    case ReadServerKeyExchange => 12
    case ReadCertificateRequest => 11
    case ReadServerHelloDone => 10
    case SendClientCertificate => 9
    case SendClientKeyExchange => 8
    case SendClientCertificateVerify => 7
    case SendClientFinished => 6
    case FinishFlight => 5
    case ReadSessionTicket => if p.resume then 9 else 4
    case ProcessChangeCipherSpec => if p.resume then 8 else 3
    case ReadServerFinished => if p.resume then 7 else 2
    case FinishClientHandshake => 1
    case Done => 0
  }

  function ServerLeft(p: Params, s: HS.ServerState): nat {
    match s
    case StartAccept => 19
    case ReadClientHello => 18
    case SelectCertificate => 17
    case SelectParameters => 16
    case SendServerHello => 15
    case SendServerCertificate => 14
    case SendServerKeyExchange => 13
    case SendServerHelloDone => 12
    case ReadClientCertificate => 11
    case VerifyClientCertificate => 10
    case ReadClientKeyExchange => 9
    case ReadClientCertificateVerify => 8
    case ReadChangeCipherSpec => 7
    case ProcessChangeCipherSpec => 6
    case ReadNextProto => 5
    case ReadChannelId => 4
    case ReadClientFinished => 3
    case SendServerFinished => if p.resume then 14 else 2
    case FinishServerHandshake => 1
    case Done => 0
  }

  /** Within a state: flush or be let on, then ask for a message, then have it. */
  function WaitLeft<S>(x: Side<S>): nat {
    match x.wait
    case Ready => if x.inbuf.None? then 3 else 1
    case ReadMessage => 2
    case Failed => 0
    case _ => 4
  }

  function Left<S>(x: Side<S>, states: nat): nat {
    10 * states + WaitLeft(x) + |x.pending|
  }

  function Measure(p: Params, l: Link): nat {
    Left(l.client, ClientLeft(p, l.client.state)) + Left(l.server, ServerLeft(p, l.server.state))
  }

  lemma ResolveDecreases<S>(x: Side<S>, wire: seq<Item>, ch: Choice, states: nat)
    requires x.wait != Ready && x.wait != Failed && (x.wait == ReadCcs || x.wait == ReadMessage ==> x.inbuf == None)
    ensures var r := Resolve(x, wire, ch);
      && r.0.state == x.state
      && (Left(r.0, states) < Left(x, states) || (r.0 == x && r.1 == wire && r.2 == []))
  {
  }

  /** From `x` to `y` in a later state, with at most four items queued. */
  predicate Forward<S>(x: Side<S>, y: Side<S>, left: nat, left': nat) {
    left' < left && |y.pending| <= |x.pending| + 4
  }

  lemma ForwardDecreases<S>(x: Side<S>, y: Side<S>, left: nat, left': nat)
    requires x.wait == Ready && Forward(x, y, left, left')
    ensures Left(y, left') < Left(x, left)
  {
  }

  /** Forward, or nothing more to do, or (never in a run) refused, or waiting. */
  ghost predicate ClientAdvances(p: Params, x: HC.Client, y: HC.Client) {
    || Forward(x, y, ClientLeft(p, x.state), ClientLeft(p, y.state)) || y == x
    || y == Await(x, Failed) || (x.inbuf.None? && y == Await(x, ReadMessage))
  }

  lemma ClientFlightLength(p: Params, x: HC.Client)
    ensures |HC.SendFinishedFlight(p, x).pending| <= |x.pending| + 4
  {
  }

  predicate ClientOpening(s: HC.ClientState) {
    s in {HC.StartConnect, HC.EnterEarlyData, HC.ReadServerHello,
          HC.ReadServerCertificate, HC.ReadCertificateStatus, HC.VerifyServerCertificate}
  }

  predicate ClientReading(s: HC.ClientState) {
    s in {HC.ReadServerKeyExchange, HC.ReadCertificateRequest, HC.ReadServerHelloDone,
          HC.ReadSessionTicket, HC.ProcessChangeCipherSpec, HC.ReadServerFinished}
  }

  lemma ClientOpens(p: Params, x: HC.Client, ch: Choice)
    requires HC.ClientOK(p, x) && x.wait == Ready && !ch.retry && ClientOpening(x.state)
    ensures ClientAdvances(p, x, HC.ClientDo(p, x, ch.retry))
  {
  }

  lemma ClientReads(p: Params, x: HC.Client, ch: Choice)
    requires HC.ClientOK(p, x) && x.wait == Ready && !ch.retry && ClientReading(x.state)
    ensures ClientAdvances(p, x, HC.ClientDo(p, x, ch.retry))
  {
  }

  lemma ClientSends(p: Params, x: HC.Client, ch: Choice)
    requires HC.ClientOK(p, x) && x.wait == Ready && !ch.retry && !ClientOpening(x.state) && !ClientReading(x.state)
    ensures ClientAdvances(p, x, HC.ClientDo(p, x, ch.retry))
  {
    hide HC.SendFinishedFlight;
    ClientFlightLength(p, x);
  }

  lemma ClientDoDecreases(p: Params, x: HC.Client, ch: Choice)
    requires HC.ClientOK(p, x) && x.wait == Ready && !ch.retry
    ensures var y := HC.ClientDo(p, x, ch.retry);
      Left(y, ClientLeft(p, y.state)) < Left(x, ClientLeft(p, x.state)) || y == x
  {
    hide HC.ClientOK, HC.ClientDo, ClientLeft, Forward;
    if ClientOpening(x.state) {
      ClientOpens(p, x, ch);
    } else if ClientReading(x.state) {
      ClientReads(p, x, ch);
    } else {
      ClientSends(p, x, ch);
    }
    var y := HC.ClientDo(p, x, ch.retry);
    if Forward(x, y, ClientLeft(p, x.state), ClientLeft(p, y.state)) {
      ForwardDecreases(x, y, ClientLeft(p, x.state), ClientLeft(p, y.state));
    }
  }

  ghost predicate ServerAdvances(p: Params, x: HS.Server, y: HS.Server) {
    || Forward(x, y, ServerLeft(p, x.state), ServerLeft(p, y.state)) || y == x
    || y == Await(x, Failed) || (x.inbuf.None? && y == Await(x, ReadMessage))
  }

  lemma ServerFlightLength(p: Params, x: HS.Server)
    ensures |HS.SendFinishedFlight(p, x).pending| <= |x.pending| + 4
  {
  }

  predicate ServerOpening(s: HS.ServerState) {
    s in {HS.StartAccept, HS.ReadClientHello, HS.SelectCertificate,
          HS.SelectParameters, HS.ReadClientCertificate, HS.VerifyClientCertificate}
  }

  predicate ServerReading(s: HS.ServerState) {
    s in {HS.ReadClientKeyExchange, HS.ReadClientCertificateVerify, HS.ReadChangeCipherSpec,
          HS.ProcessChangeCipherSpec, HS.ReadNextProto, HS.ReadChannelId, HS.ReadClientFinished}
  }

  lemma ServerOpens(p: Params, x: HS.Server, ch: Choice)
    requires HS.ServerOK(p, x) && x.wait == Ready && !ch.retry && ServerOpening(x.state)
    ensures ServerAdvances(p, x, HS.ServerDo(p, x, ch.retry))
  {
  }

  lemma ServerReads(p: Params, x: HS.Server, ch: Choice)
    requires HS.ServerOK(p, x) && x.wait == Ready && !ch.retry && ServerReading(x.state)
    ensures ServerAdvances(p, x, HS.ServerDo(p, x, ch.retry))
  {
  }

  lemma ServerSends(p: Params, x: HS.Server, ch: Choice)
    requires HS.ServerOK(p, x) && x.wait == Ready && !ch.retry && !ServerOpening(x.state) && !ServerReading(x.state)
    ensures ServerAdvances(p, x, HS.ServerDo(p, x, ch.retry))
  {
    hide HS.SendFinishedFlight;
    ServerFlightLength(p, x);
  }

  lemma ServerDoDecreases(p: Params, x: HS.Server, ch: Choice)
    requires HS.ServerOK(p, x) && x.wait == Ready && !ch.retry
    ensures var y := HS.ServerDo(p, x, ch.retry);
      Left(y, ServerLeft(p, y.state)) < Left(x, ServerLeft(p, x.state)) || y == x
  {
    hide HS.ServerOK, HS.ServerDo, ServerLeft, Forward;
    if ServerOpening(x.state) {
      ServerOpens(p, x, ch);
    } else if ServerReading(x.state) {
      ServerReads(p, x, ch);
    } else {
      ServerSends(p, x, ch);
    }
    var y := HS.ServerDo(p, x, ch.retry);
    if Forward(x, y, ServerLeft(p, x.state), ServerLeft(p, y.state)) {
      ForwardDecreases(x, y, ServerLeft(p, x.state), ServerLeft(p, y.state));
    }
  }

  lemma StepDecreases(p: Params, l: Link, l': Link, ch: Choice)
    requires Inv(p, l) && !ch.retry && l' != l && (l' == StepClient(p, l, ch) || l' == StepServer(p, l, ch))
    ensures Measure(p, l') < Measure(p, l)
  {
    hide Along, InFlight, Left, HC.ClientDo, HS.ServerDo, ClientLeft, ServerLeft, Resolve, HC.ClientAt, HS.ServerAt;
    if l.client.wait == Ready {
      ClientDoDecreases(p, l.client, ch);
    } else {
      ResolveDecreases(l.client, l.toClient, ch, ClientLeft(p, l.client.state));
    }
    if l.server.wait == Ready {
      ServerDoDecreases(p, l.server, ch);
    } else {
      ResolveDecreases(l.server, l.toServer, ch, ServerLeft(p, l.server.state));
    }
    assert l.toServer + [] == l.toServer && l.toClient + [] == l.toClient;
  }

  /** A run in which every step does something and no operation is put off. */
  ghost predicate BusyRun(p: Params, links: seq<Link>) {
    && |links| > 0 && links[0] == Start()
    && forall i :: 0 <= i < |links| - 1 ==> BusyNext(p, links[i], links[i + 1])
  }

  ghost predicate BusyNext(p: Params, l: Link, l': Link) {
    l' != l && exists ch: Choice :: !ch.retry && (l' == StepClient(p, l, ch) || l' == StepServer(p, l, ch))
  }

  lemma BusyIsRun(p: Params, links: seq<Link>)
    requires BusyRun(p, links)
    ensures Run(p, links)
  {
    hide StepClient, StepServer, Start;
    forall i | 0 <= i < |links| - 1 ensures Next(p, links[i], links[i + 1]) {
      assert BusyNext(p, links[i], links[i + 1]);
    }
  }

  lemma {:induction false} BusyRunShrinks(p: Params, links: seq<Link>, i: nat)
    requires p.Agreed() && BusyRun(p, links) && i < |links|
    ensures Measure(p, links[i]) + i <= Measure(p, Start())
  {
    hide StepClient, StepServer, Start, Measure, Run, Inv;
    if i > 0 {
      BusyRunShrinks(p, links, i - 1);
      BusyIsRun(p, links);
      RunKeeps(p, links, i - 1);
      assert BusyNext(p, links[i - 1], links[i]);
      var ch: Choice :|
        !ch.retry && (links[i] == StepClient(p, links[i - 1], ch) || links[i] == StepServer(p, links[i - 1], ch));
      StepDecreases(p, links[i - 1], links[i], ch);
    }
  }

  /** There are at most 376 such steps. With `StopsOnlyWhenDone`: a run that is not held up for ever ends with both
      sides done. */
  lemma HandshakeEnds(p: Params, links: seq<Link>)
    requires p.Agreed() && BusyRun(p, links)
    ensures |links| <= 377
  {
    BusyRunShrinks(p, links, |links| - 1);
  }
}
