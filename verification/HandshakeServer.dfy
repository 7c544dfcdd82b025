/** The server's states for TLS 1.0-1.2. */
module HandshakeServer {
  import opened Bits
  import opened HandshakeScript

  /** The states of `ssl_server_handshake`, without the one for TLS 1.3. */
  datatype ServerState =
    | StartAccept | ReadClientHello | SelectCertificate | SelectParameters | SendServerHello
    | SendServerCertificate | SendServerKeyExchange | SendServerHelloDone | ReadClientCertificate
    | VerifyClientCertificate | ReadClientKeyExchange | ReadClientCertificateVerify | ReadChangeCipherSpec
    | ProcessChangeCipherSpec | ReadNextProto | ReadChannelId | ReadClientFinished | SendServerFinished
    | FinishServerHandshake | Done

  type Server = Side<ServerState>

  /** One call of a state function; `retry` is whether an operation of the application is not finished yet. */
  function ServerDo(p: Params, x: Server, retry: bool): Server {
    match x.state
    case StartAccept => Goto(x, ReadClientHello)
    case ReadClientHello =>
      if x.inbuf.None? then Await(x, ReadMessage)
      else if x.inbuf.value.typ != ClientHello then Await(x, Failed)
      else if retry then Await(x, Paused)
      else Goto(x, SelectCertificate)
    case SelectCertificate =>
      if x.inbuf.None? then Await(x, ReadMessage)
      else if retry then Await(x, Paused)
      else Goto(x, SelectParameters)
    case SelectParameters =>
      if x.inbuf.None? then Await(x, ReadMessage)
      else if retry then Await(x, Paused)
      else Goto(Take(x), SendServerHello)
    case SendServerHello =>
      Goto(Add(x, true, false, ServerHello), if p.resume then SendServerFinished else SendServerCertificate)
    case SendServerCertificate => Goto(SendCertificates(p, x), SendServerKeyExchange)
    case SendServerKeyExchange =>
      if !p.SendsSke() then Goto(x, SendServerHelloDone)
      else if p.CertAuth() && retry then Await(x, Paused)
      else Goto(Add(x, true, false, ServerKeyExchange), SendServerHelloDone)
    case SendServerHelloDone => Await(Goto(SendDone(p, x), ReadClientCertificate), Flush)
    case ReadClientCertificate =>
      if !p.certRequest then Goto(x, VerifyClientCertificate)
      else
        var y := Expect(x, Certificate, VerifyClientCertificate);
        if y.state == VerifyClientCertificate then y.(flag := p.clientHasCert) else y
    case VerifyClientCertificate =>
      if x.flag && retry then Await(x, Paused) else Goto(x, ReadClientKeyExchange)
    case ReadClientKeyExchange =>
      if x.inbuf.None? then Await(x, ReadMessage)
      else if x.inbuf.value.typ != ClientKeyExchange then Await(x, Failed)
      else if p.keyExchange == Rsa && retry then Await(x, Paused)
      else Goto(Take(x), ReadClientCertificateVerify)
    case ReadClientCertificateVerify =>
      if !x.flag then Goto(x, ReadChangeCipherSpec)
      else Expect(x, CertificateVerify, ReadChangeCipherSpec)
    case ReadChangeCipherSpec => Await(Goto(x, ProcessChangeCipherSpec), ReadCcs)
    case ProcessChangeCipherSpec => if x.inbuf.Some? then Await(x, Failed) else Goto(x, ReadNextProto)
    case ReadNextProto => if !p.npn then Goto(x, ReadChannelId) else Expect(x, NextProto, ReadChannelId)
    case ReadChannelId => if !p.channelId then Goto(x, ReadClientFinished) else Expect(x, ChannelId, ReadClientFinished)
    case ReadClientFinished => ExpectFinished(x, if p.resume then FinishServerHandshake else SendServerFinished)
    case SendServerFinished =>
      Await(Goto(SendFinishedFlight(p, x), if p.resume then ReadChangeCipherSpec else FinishServerHandshake), Flush)
    case FinishServerHandshake => Goto(x, Done)
    case Done => x
  }

  function SendCertificates(p: Params, x: Server): Server {
    Add(Add(x, p.CertAuth(), false, Certificate), p.CertAuth() && p.ocsp, false, CertificateStatus)
  }

  function SendDone(p: Params, x: Server): Server {
    Add(Add(x, p.certRequest, false, CertificateRequest), true, false, ServerHelloDone)
  }

  function SendFinishedFlight(p: Params, x: Server): Server {
    Add(AddCcs(Add(x, p.ticket, false, NewSessionTicket), false), true, false, Finished)
  }

  /** Where in the script the server stands. */
  function ServerAt(p: Params, x: Server): nat {
    match x.state
    case StartAccept => 0
    case ReadClientHello => 0
    case SelectCertificate => 0
    case SelectParameters => 0
    case SendServerHello => 1
    case SendServerCertificate => 2
    case SendServerKeyExchange => 4
    case SendServerHelloDone => 5
    case ReadClientCertificate => 7
    case VerifyClientCertificate => 8
    case ReadClientKeyExchange => 8
    case ReadClientCertificateVerify => 9
    case ReadChangeCipherSpec => if p.resume then 5 else 10
    case ProcessChangeCipherSpec => (if p.resume then 5 else 10) + (if x.wait == ReadCcs then 0 else 1)
    case ReadNextProto => if p.resume then 6 else 11
    case ReadChannelId => if p.resume then 7 else 12
    case ReadClientFinished => if p.resume then 8 else 13
    case SendServerFinished => if p.resume then 2 else 14
    case FinishServerHandshake => Length(p)
    case Done => Length(p)
  }

  /** The states of a full handshake only. */
  predicate FullOnly(s: ServerState) {
    s in {SendServerCertificate, SendServerKeyExchange, SendServerHelloDone, ReadClientCertificate,
          VerifyClientCertificate, ReadClientKeyExchange, ReadClientCertificateVerify}
  }

  /** The states in which something is queued but not flushed. */
  predicate Sending(x: Server) {
    x.wait == Flush || x.state in {SendServerCertificate, SendServerKeyExchange, SendServerHelloDone, SendServerFinished}
  }

  /** What holds of a server in every reachable state, besides its place in the script. */
  ghost predicate ServerOK(p: Params, x: Server) {
    && (p.resume ==> !FullOnly(x.state))
    && x.wait != Failed
    && (x.wait == ReadCcs ==> x.state == ProcessChangeCipherSpec)
    && (x.wait == ReadMessage ==> WaitsForMessage(p, x.state))
    && (x.wait == ReadCcs || x.wait == ReadMessage ==> x.inbuf == None)
    && (x.pending != [] ==> Sending(x))
    && (x.flag ==> p.certRequest && p.clientHasCert)
    && (x.state in {VerifyClientCertificate, ReadClientKeyExchange, ReadClientCertificateVerify} ==>
          x.flag == (p.certRequest && p.clientHasCert))
    && (x.state == ProcessChangeCipherSpec && x.wait != ReadCcs ==> x.inbuf == None)
    && (x.state in {SelectCertificate, SelectParameters} ==> x.inbuf.Some?)
  }

  /** The states that wait for a message, and then a place of the client is next. */
  predicate WaitsForMessage(p: Params, s: ServerState) {
    match s
    case ReadClientHello => true
    case ReadClientCertificate => p.certRequest
    case ReadClientKeyExchange => true
    case ReadClientCertificateVerify => p.certRequest && p.clientHasCert
    case ReadNextProto => p.npn
    case ReadChannelId => p.channelId
    case ReadClientFinished => true
    case _ => false
  }

  /** What one call of a state function does: nothing is rejected, and the server moves on along the script. */
  ghost predicate ServerGoesOn(p: Params, x: Server, y: Server) {
    && ServerOK(p, y)
    && Along(p, y, ServerAt(p, y), false)
    && Moves(p, x, y, ServerAt(p, x), ServerAt(p, y), false)
  }

  lemma DoStart(p: Params, x: Server, retry: bool, peer: nat)
    requires p.Agreed() && ServerOK(p, x) && x.wait == Ready && Along(p, x, ServerAt(p, x), false)
    requires peer <= Length(p) && Buffered(p, x, ServerAt(p, x), peer)
    requires x.state in {StartAccept, ReadClientHello}
    ensures ServerGoesOn(p, x, ServerDo(p, x, retry))
  {
    hide Hashed, Between, OwnItems;
    if x.inbuf.Some? { FrontIsBuffered(p, x, 0, peer); }
    Stay(p, x, 0, false);
  }

  lemma DoSelect(p: Params, x: Server, retry: bool, peer: nat)
    requires p.Agreed() && ServerOK(p, x) && x.wait == Ready && Along(p, x, ServerAt(p, x), false)
    requires peer <= Length(p) && Buffered(p, x, ServerAt(p, x), peer)
    requires x.state in {SelectCertificate, SelectParameters}
    ensures ServerGoesOn(p, x, ServerDo(p, x, retry))
  {
    hide Hashed, Between, OwnItems;
    FrontIsBuffered(p, x, 0, peer);
    if x.state == SelectParameters && !retry { TakeOn(p, x, 0, false); } else { Stay(p, x, 0, false); }
  }

  lemma DoSendHello(p: Params, x: Server, retry: bool)
    requires p.Agreed() && ServerOK(p, x) && x.wait == Ready && Along(p, x, ServerAt(p, x), false)
    requires x.state == SendServerHello
    ensures ServerGoesOn(p, x, ServerDo(p, x, retry))
  {
    hide Hashed, Between, OwnItems, ItemAt;
    AddOn(p, x, 1, false);
  }

  lemma CertificatesOn(p: Params, x: Server)
    requires p.Agreed() && !p.resume && Along(p, x, 2, false)
    ensures var y := SendCertificates(p, x);
      && Along(p, y, 4, false) && Sends(p, x, y, 2, 4, false)
      && y.state == x.state && y.flag == x.flag && y.wait == x.wait && y.inbuf == x.inbuf
  {
    hide Hashed, Between, OwnItems, ItemAt, Along, Sends;
    var y := Add(x, p.CertAuth(), false, Certificate);
    AddOn(p, x, 2, false);
    AddOn(p, y, 3, false);
    SendsThen(p, x, y, SendCertificates(p, x), 2, 3, 4, false);
  }

  lemma DoSendCertificate(p: Params, x: Server, retry: bool)
    requires p.Agreed() && ServerOK(p, x) && x.wait == Ready && Along(p, x, ServerAt(p, x), false)
    requires x.state == SendServerCertificate
    ensures ServerGoesOn(p, x, ServerDo(p, x, retry))
  {
    hide Hashed, Between, OwnItems, ItemAt, SendCertificates;
    CertificatesOn(p, x);
  }

  lemma DoSendKeyExchange(p: Params, x: Server, retry: bool)
    requires p.Agreed() && ServerOK(p, x) && x.wait == Ready && Along(p, x, ServerAt(p, x), false)
    requires x.state == SendServerKeyExchange
    ensures ServerGoesOn(p, x, ServerDo(p, x, retry))
  {
    hide Hashed, Between, OwnItems, ItemAt;
    AddOn(p, x, 4, false);
    Stay(p, x, 4, false);
  }

  lemma DoneOn(p: Params, x: Server)
    requires p.Agreed() && !p.resume && Along(p, x, 5, false)
    ensures var y := SendDone(p, x);
      && Along(p, y, 7, false) && Sends(p, x, y, 5, 7, false)
      && y.state == x.state && y.flag == x.flag && y.wait == x.wait && y.inbuf == x.inbuf
  {
    hide Hashed, Between, OwnItems, ItemAt, Along, Sends;
    var y := Add(x, p.certRequest, false, CertificateRequest);
    AddOn(p, x, 5, false);
    AddOn(p, y, 6, false);
    SendsThen(p, x, y, SendDone(p, x), 5, 6, 7, false);
  }

  lemma DoSendDone(p: Params, x: Server, retry: bool)
    requires p.Agreed() && ServerOK(p, x) && x.wait == Ready && Along(p, x, ServerAt(p, x), false)
    requires x.state == SendServerHelloDone
    ensures ServerGoesOn(p, x, ServerDo(p, x, retry))
  {
    hide Hashed, Between, OwnItems, ItemAt, SendDone;
    DoneOn(p, x);
  }

  lemma DoReadCertificate(p: Params, x: Server, retry: bool, peer: nat)
    requires p.Agreed() && ServerOK(p, x) && x.wait == Ready && Along(p, x, ServerAt(p, x), false)
    requires peer <= Length(p) && Buffered(p, x, ServerAt(p, x), peer)
    requires x.state == ReadClientCertificate
    ensures ServerGoesOn(p, x, ServerDo(p, x, retry))
  {
    hide Hashed, Between, OwnItems, ItemAt;
    if !p.certRequest {
      Skip(p, x, 7, false);
    } else {
      ReadOn(p, x, 7, false, peer);
    }
  }

  lemma DoVerify(p: Params, x: Server, retry: bool)
    requires p.Agreed() && ServerOK(p, x) && x.wait == Ready && Along(p, x, ServerAt(p, x), false)
    requires x.state in {VerifyClientCertificate, ProcessChangeCipherSpec}
    ensures ServerGoesOn(p, x, ServerDo(p, x, retry))
  {
    hide Hashed, Between, OwnItems, ItemAt;
    Stay(p, x, ServerAt(p, x), false);
  }

  lemma DoReadKeyExchange(p: Params, x: Server, retry: bool, peer: nat)
    requires p.Agreed() && ServerOK(p, x) && x.wait == Ready && Along(p, x, ServerAt(p, x), false)
    requires peer <= Length(p) && Buffered(p, x, ServerAt(p, x), peer)
    requires x.state == ReadClientKeyExchange
    ensures ServerGoesOn(p, x, ServerDo(p, x, retry))
  {
    hide Hashed, Between, OwnItems, ItemAt;
    Stay(p, x, 8, false);
    ReadOn(p, x, 8, false, peer);
  }

  lemma DoReadVerify(p: Params, x: Server, retry: bool, peer: nat)
    requires p.Agreed() && ServerOK(p, x) && x.wait == Ready && Along(p, x, ServerAt(p, x), false)
    requires peer <= Length(p) && Buffered(p, x, ServerAt(p, x), peer)
    requires x.state == ReadClientCertificateVerify
    ensures ServerGoesOn(p, x, ServerDo(p, x, retry))
  {
    hide Hashed, Between, OwnItems, ItemAt;
    if !x.flag {
      Skip(p, x, 9, false);
    } else {
      ReadOn(p, x, 9, false, peer);
    }
  }

  lemma DoAwaitCcs(p: Params, x: Server, retry: bool, peer: nat)
    requires p.Agreed() && ServerOK(p, x) && x.wait == Ready && Along(p, x, ServerAt(p, x), false)
    requires peer <= Length(p) && Buffered(p, x, ServerAt(p, x), peer)
    requires x.state == ReadChangeCipherSpec
    ensures ServerGoesOn(p, x, ServerDo(p, x, retry))
  {
    hide Hashed, Between, OwnItems, ItemAt;
    NothingBeforeCcs(p, x, ServerAt(p, x), peer);
    Stay(p, x, ServerAt(p, x), false);
  }

  lemma DoReadNextProto(p: Params, x: Server, retry: bool, peer: nat)
    requires p.Agreed() && ServerOK(p, x) && x.wait == Ready && Along(p, x, ServerAt(p, x), false)
    requires peer <= Length(p) && Buffered(p, x, ServerAt(p, x), peer)
    requires x.state == ReadNextProto
    ensures ServerGoesOn(p, x, ServerDo(p, x, retry))
  {
    hide Hashed, Between, OwnItems, ItemAt;
    var i := ServerAt(p, x);
    if !p.npn {
      Skip(p, x, i, false);
    } else {
      ReadOn(p, x, i, false, peer);
    }
  }

  lemma DoReadChannelId(p: Params, x: Server, retry: bool, peer: nat)
    requires p.Agreed() && ServerOK(p, x) && x.wait == Ready && Along(p, x, ServerAt(p, x), false)
    requires peer <= Length(p) && Buffered(p, x, ServerAt(p, x), peer)
    requires x.state == ReadChannelId
    ensures ServerGoesOn(p, x, ServerDo(p, x, retry))
  {
    hide Hashed, Between, OwnItems, ItemAt;
    var i := ServerAt(p, x);
    if !p.channelId {
      Skip(p, x, i, false);
    } else {
      ReadOn(p, x, i, false, peer);
    }
  }

  lemma DoReadFinished(p: Params, x: Server, retry: bool, peer: nat)
    requires p.Agreed() && ServerOK(p, x) && x.wait == Ready && Along(p, x, ServerAt(p, x), false)
    requires peer <= Length(p) && Buffered(p, x, ServerAt(p, x), peer)
    requires x.state == ReadClientFinished
    ensures ServerGoesOn(p, x, ServerDo(p, x, retry))
  {
    hide Hashed, Between, OwnItems, ItemAt;
    var i := ServerAt(p, x);
    ReadOn(p, x, i, false, peer);
  }

  /** Perhaps NewSessionTicket, ChangeCipherSpec, and Finished. */
  lemma FinishedFlightOn(p: Params, x: Server, i: nat)
    requires i == (if p.resume then 2 else 14) && Along(p, x, i, false)
    ensures var y := SendFinishedFlight(p, x);
      && Along(p, y, i + 3, false) && Sends(p, x, y, i, i + 3, false)
      && y.state == x.state && y.flag == x.flag && y.wait == x.wait && y.inbuf == x.inbuf
  {
    hide Hashed, Between, OwnItems, ItemAt, Along, Sends;
    var y := Add(x, p.ticket, false, NewSessionTicket);
    AddOn(p, x, i, false);
    var z := AddCcs(y, false);
    AddCcsOn(p, y, i + 1, false);
    SendsThen(p, x, y, z, i, i + 1, i + 2, false);
    AddOn(p, z, i + 2, false);
    SendsThen(p, x, z, Add(z, true, false, Finished), i, i + 2, i + 3, false);
  }

  lemma DoSendFinished(p: Params, x: Server, retry: bool)
    requires p.Agreed() && ServerOK(p, x) && x.wait == Ready && Along(p, x, ServerAt(p, x), false)
    requires x.state == SendServerFinished
    ensures ServerGoesOn(p, x, ServerDo(p, x, retry))
  {
    hide Hashed, Between, OwnItems, ItemAt, SendFinishedFlight;
    FinishedFlightOn(p, x, ServerAt(p, x));
  }

  lemma DoFinish(p: Params, x: Server, retry: bool)
    requires p.Agreed() && ServerOK(p, x) && x.wait == Ready && Along(p, x, ServerAt(p, x), false)
    requires x.state in {FinishServerHandshake, Done}
    ensures ServerGoesOn(p, x, ServerDo(p, x, retry))
  {
    hide Hashed, Between, OwnItems, ItemAt;
    Stay(p, x, ServerAt(p, x), false);
  }

  /** Whatever state the server is in: the message in its buffer is one it accepts, and it moves on along the script. */
  lemma ServerNeverRejects(p: Params, x: Server, retry: bool, peer: nat)
    requires p.Agreed() && ServerOK(p, x) && x.wait == Ready && Along(p, x, ServerAt(p, x), false)
    requires peer <= Length(p) && Buffered(p, x, ServerAt(p, x), peer)
    ensures ServerGoesOn(p, x, ServerDo(p, x, retry))
  {
    hide ServerOK, Along, Buffered, ServerGoesOn, ServerDo, ServerAt;
    match x.state
    case StartAccept => DoStart(p, x, retry, peer);
    case ReadClientHello => DoStart(p, x, retry, peer);
    case SelectCertificate => DoSelect(p, x, retry, peer);
    case SelectParameters => DoSelect(p, x, retry, peer);
    case SendServerHello => DoSendHello(p, x, retry);
    case SendServerCertificate => DoSendCertificate(p, x, retry);
    case SendServerKeyExchange => DoSendKeyExchange(p, x, retry);
    case SendServerHelloDone => DoSendDone(p, x, retry);
    case ReadClientCertificate => DoReadCertificate(p, x, retry, peer);
    case ReadClientKeyExchange => DoReadKeyExchange(p, x, retry, peer);
    case ReadClientCertificateVerify => DoReadVerify(p, x, retry, peer);
    case ReadChangeCipherSpec => DoAwaitCcs(p, x, retry, peer);
    case ReadNextProto => DoReadNextProto(p, x, retry, peer);
    case ReadChannelId => DoReadChannelId(p, x, retry, peer);
    case ReadClientFinished => DoReadFinished(p, x, retry, peer);
    case SendServerFinished => DoSendFinished(p, x, retry);
    case VerifyClientCertificate => DoVerify(p, x, retry);
    case ProcessChangeCipherSpec => DoVerify(p, x, retry);
    case _ => DoFinish(p, x, retry);
  }

  /** What a waiting server waits for: the next used place, which is the client's. */
  lemma ServerNext(p: Params, x: Server) returns (n: nat)
    requires p.Agreed() && ServerOK(p, x) && (x.wait == ReadMessage || x.wait == ReadCcs)
    ensures NextIs(p, ServerAt(p, x), n) && FromClient(Place(p, n))
    ensures x.wait == ReadMessage ==> Place(p, n) != CCcs
    ensures x.wait == ReadCcs ==> Place(p, n) == CCcs && n == ServerAt(p, x)
  {
    n := ServerAt(p, x);
  }
}
