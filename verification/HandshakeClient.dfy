/** The client's states for TLS 1.0-1.2. */
module HandshakeClient {
  import opened Bits
  import opened HandshakeScript

  /** The states of `ssl_client_handshake`, without the ones for DTLS and TLS 1.3. */
  datatype ClientState =
    | StartConnect | EnterEarlyData | ReadServerHello | ReadServerCertificate | ReadCertificateStatus
    | VerifyServerCertificate | ReadServerKeyExchange | ReadCertificateRequest | ReadServerHelloDone
    | SendClientCertificate | SendClientKeyExchange | SendClientCertificateVerify | SendClientFinished
    | FinishFlight | ReadSessionTicket | ProcessChangeCipherSpec | ReadServerFinished | FinishClientHandshake | Done

  type Client = Side<ClientState>

  /** One call of a state function; `retry` is whether an operation of the application is not finished yet. */
  function ClientDo(p: Params, x: Client, retry: bool): Client {
    match x.state
    case StartConnect => Await(Goto(Add(x, true, true, ClientHello), EnterEarlyData), Flush)
    case EnterEarlyData => Goto(x, ReadServerHello)
    case ReadServerHello => Expect(x, ServerHello, if p.resume then ReadSessionTicket else ReadServerCertificate)
    case ReadServerCertificate =>
      if !p.CertAuth() then Goto(x, ReadCertificateStatus)
      else Expect(x, Certificate, ReadCertificateStatus)
    case ReadCertificateStatus =>
      if !p.ocsp then Goto(x, VerifyServerCertificate)
      else if x.inbuf.None? then Await(x, ReadMessage)
      else if x.inbuf.value.typ != CertificateStatus then Goto(x, VerifyServerCertificate)
      else Goto(Take(x), VerifyServerCertificate)
    case VerifyServerCertificate =>
      if p.CertAuth() && retry then Await(x, Paused) else Goto(x, ReadServerKeyExchange)
    case ReadServerKeyExchange =>
      if x.inbuf.None? then Await(x, ReadMessage)
      else if x.inbuf.value.typ != ServerKeyExchange then
        if p.RequiresSke() then Await(x, Failed) else Goto(x, ReadCertificateRequest)
      else if p.keyExchange == Rsa then Await(x, Failed)
      else Goto(Take(x), ReadCertificateRequest)
    case ReadCertificateRequest =>
      if !p.CertAuth() then Goto(x, ReadServerHelloDone)
      else if x.inbuf.None? then Await(x, ReadMessage)
      else if x.inbuf.value.typ == ServerHelloDone then Goto(x, ReadServerHelloDone)
      else if x.inbuf.value.typ != CertificateRequest then Await(x, Failed)
      else Goto(Take(x), ReadServerHelloDone).(flag := true)
    case ReadServerHelloDone => Expect(x, ServerHelloDone, SendClientCertificate)
    case SendClientCertificate =>
      if !x.flag then Goto(x, SendClientKeyExchange)
      else if retry then Await(x, Paused)
      else Goto(Add(x, true, true, Certificate), SendClientKeyExchange)
    case SendClientKeyExchange => Goto(Add(x, true, true, ClientKeyExchange), SendClientCertificateVerify)
    case SendClientCertificateVerify =>
      if !x.flag || !p.clientHasCert then Goto(x, SendClientFinished)
      else if retry then Await(x, Paused)
      else Goto(Add(x, true, true, CertificateVerify), SendClientFinished)
    case SendClientFinished =>
      if p.channelId && retry then Await(x, Paused)
      else Await(Goto(SendFinishedFlight(p, x), FinishFlight), Flush)
    case FinishFlight =>
      // Under False Start the application may write before the handshake goes on.
      if p.resume then Goto(x, FinishClientHandshake)
      else if retry then Await(Goto(x, ReadSessionTicket), Paused)
      else Goto(x, ReadSessionTicket)
    case ReadSessionTicket =>
      if !p.ticket then Await(Goto(x, ProcessChangeCipherSpec), ReadCcs)
      else
        var y := Expect(x, NewSessionTicket, ProcessChangeCipherSpec);
        if y.state == ProcessChangeCipherSpec then Await(y, ReadCcs) else y
    case ProcessChangeCipherSpec => if x.inbuf.Some? then Await(x, Failed) else Goto(x, ReadServerFinished)
    case ReadServerFinished => ExpectFinished(x, if p.resume then SendClientFinished else FinishClientHandshake)
    case FinishClientHandshake => Goto(x, Done)
    case Done => x
  }

  function SendFinishedFlight(p: Params, x: Client): Client {
    var y := AddCcs(x, true);
    var z := Add(y, p.npn, true, NextProto);
    Add(Add(z, p.channelId, true, ChannelId), true, true, Finished)
  }

  /** Where in the script the client stands. */
  function ClientAt(p: Params, x: Client): nat {
    match x.state
    case StartConnect => 0
    case EnterEarlyData => 1
    case ReadServerHello => 1
    case ReadServerCertificate => 2
    case ReadCertificateStatus => 3
    case VerifyServerCertificate => 4
    case ReadServerKeyExchange => 4
    case ReadCertificateRequest => 5
    case ReadServerHelloDone => 6
    case SendClientCertificate => 7
    case SendClientKeyExchange => 8
    case SendClientCertificateVerify => 9
    case SendClientFinished => if p.resume then 5 else 10
    case FinishFlight => if p.resume then 9 else 14
    case ReadSessionTicket => if p.resume then 2 else 14
    case ProcessChangeCipherSpec => (if p.resume then 3 else 15) + (if x.wait == ReadCcs then 0 else 1)
    case ReadServerFinished => if p.resume then 4 else 16
    case FinishClientHandshake => Length(p)
    case Done => Length(p)
  }

  /** The states of a full handshake only. */
  predicate FullOnly(s: ClientState) {
    s in {ReadServerCertificate, ReadCertificateStatus, VerifyServerCertificate, ReadServerKeyExchange,
          ReadCertificateRequest, ReadServerHelloDone, SendClientCertificate, SendClientKeyExchange,
          SendClientCertificateVerify}
  }

  /** The states in which something is queued but not flushed. */
  predicate Sending(x: Client) {
    || x.wait == Flush || x.state in {SendClientKeyExchange, SendClientCertificateVerify}
    || (x.state == SendClientFinished && x.wait != Flush)
  }

  /** What holds of a client in every reachable state, besides its place in the script. */
  ghost predicate ClientOK(p: Params, x: Client) {
    && (p.resume ==> !FullOnly(x.state))
    && x.wait != Failed
    && (x.wait == ReadCcs ==> x.state == ProcessChangeCipherSpec)
    && (x.wait == ReadMessage ==> WaitsForMessage(p, x.state))
    && (x.wait == ReadCcs || x.wait == ReadMessage ==> x.inbuf == None)
    && (x.pending != [] ==> Sending(x))
    && (x.flag ==> p.certRequest)
    && (x.state in {ReadServerHelloDone, SendClientCertificate, SendClientKeyExchange, SendClientCertificateVerify} ==>
          x.flag == p.certRequest)
    && (x.state == ProcessChangeCipherSpec && x.wait != ReadCcs ==> x.inbuf == None)
  }

  /** The states that wait for a message, and then a place of the server is next. */
  predicate WaitsForMessage(p: Params, s: ClientState) {
    match s
    case ReadServerHello => true
    case ReadServerCertificate => p.CertAuth()
    case ReadCertificateStatus => p.ocsp
    case ReadServerKeyExchange => true
    case ReadCertificateRequest => p.CertAuth()
    case ReadServerHelloDone => true
    case ReadSessionTicket => p.ticket
    case ReadServerFinished => true
    case _ => false
  }

  /** What one call of a state function does: nothing is rejected, and the client moves on along the script. */
  ghost predicate ClientGoesOn(p: Params, x: Client, y: Client) {
    && ClientOK(p, y)
    && Along(p, y, ClientAt(p, y), true)
    && Moves(p, x, y, ClientAt(p, x), ClientAt(p, y), true)
  }

  lemma DoHello(p: Params, x: Client, retry: bool)
    requires p.Agreed() && ClientOK(p, x) && x.wait == Ready && Along(p, x, ClientAt(p, x), true)
    requires x.state in {StartConnect, EnterEarlyData}
    ensures ClientGoesOn(p, x, ClientDo(p, x, retry))
  {
    hide Hashed, Between, OwnItems, ItemAt;
    if x.state == StartConnect { AddOn(p, x, 0, true); } else { Stay(p, x, 1, true); }
  }

  lemma DoSendCertificate(p: Params, x: Client, retry: bool)
    requires p.Agreed() && ClientOK(p, x) && x.wait == Ready && Along(p, x, ClientAt(p, x), true)
    requires x.state == SendClientCertificate
    ensures ClientGoesOn(p, x, ClientDo(p, x, retry))
  {
    hide Hashed, Between, OwnItems, ItemAt;
    AddOn(p, x, 7, true);
    Stay(p, x, 7, true);
  }

  lemma DoSendKeyExchange(p: Params, x: Client, retry: bool)
    requires p.Agreed() && ClientOK(p, x) && x.wait == Ready && Along(p, x, ClientAt(p, x), true)
    requires x.state == SendClientKeyExchange
    ensures ClientGoesOn(p, x, ClientDo(p, x, retry))
  {
    hide Hashed, Between, OwnItems, ItemAt;
    AddOn(p, x, 8, true);
  }

  lemma DoSendVerify(p: Params, x: Client, retry: bool)
    requires p.Agreed() && ClientOK(p, x) && x.wait == Ready && Along(p, x, ClientAt(p, x), true)
    requires x.state == SendClientCertificateVerify
    ensures ClientGoesOn(p, x, ClientDo(p, x, retry))
  {
    hide Hashed, Between, OwnItems, ItemAt;
    AddOn(p, x, 9, true);
    Stay(p, x, 9, true);
  }

  /** ChangeCipherSpec, perhaps NextProto, perhaps ChannelID, and Finished. */
  lemma FinishedFlightOn(p: Params, x: Client, i: nat)
    requires i == (if p.resume then 5 else 10) && Along(p, x, i, true)
    ensures Along(p, SendFinishedFlight(p, x), i + 4, true) && Sends(p, x, SendFinishedFlight(p, x), i, i + 4, true)
  {
    hide Hashed, Between, OwnItems, ItemAt, Along, Sends;
    var y := AddCcs(x, true);
    AddCcsOn(p, x, i, true);
    var z := Add(y, p.npn, true, NextProto);
    AddOn(p, y, i + 1, true);
    SendsThen(p, x, y, z, i, i + 1, i + 2, true);
    var w := Add(z, p.channelId, true, ChannelId);
    AddOn(p, z, i + 2, true);
    SendsThen(p, x, z, w, i, i + 2, i + 3, true);
    AddOn(p, w, i + 3, true);
    SendsThen(p, x, w, Add(w, true, true, Finished), i, i + 3, i + 4, true);
  }

  lemma FinishedFlightKeeps(p: Params, x: Client)
    ensures var y := SendFinishedFlight(p, x);
      y.state == x.state && y.flag == x.flag && y.wait == x.wait && y.inbuf == x.inbuf
  {
  }

  lemma DoSendFinished(p: Params, x: Client, retry: bool)
    requires p.Agreed() && ClientOK(p, x) && x.wait == Ready && Along(p, x, ClientAt(p, x), true)
    requires x.state == SendClientFinished
    ensures ClientGoesOn(p, x, ClientDo(p, x, retry))
  {
    hide Hashed, Between, OwnItems, ItemAt, SendFinishedFlight;
    FinishedFlightOn(p, x, ClientAt(p, x));
    FinishedFlightKeeps(p, x);
    Stay(p, x, ClientAt(p, x), true);
  }

  lemma DoVerify(p: Params, x: Client, retry: bool)
    requires p.Agreed() && ClientOK(p, x) && x.wait == Ready && Along(p, x, ClientAt(p, x), true)
    requires x.state in {VerifyServerCertificate, ProcessChangeCipherSpec}
    ensures ClientGoesOn(p, x, ClientDo(p, x, retry))
  {
    hide Hashed, Between, OwnItems, ItemAt;
    Stay(p, x, ClientAt(p, x), true);
  }

  lemma DoFinish(p: Params, x: Client, retry: bool)
    requires p.Agreed() && ClientOK(p, x) && x.wait == Ready && Along(p, x, ClientAt(p, x), true)
    requires x.state in {FinishFlight, FinishClientHandshake, Done}
    ensures ClientGoesOn(p, x, ClientDo(p, x, retry))
  {
    hide Hashed, Between, OwnItems, ItemAt;
    Stay(p, x, ClientAt(p, x), true);
  }

  lemma DoReadHello(p: Params, x: Client, retry: bool, peer: nat)
    requires p.Agreed() && ClientOK(p, x) && x.wait == Ready && Along(p, x, ClientAt(p, x), true)
    requires peer <= Length(p) && Buffered(p, x, ClientAt(p, x), peer)
    requires x.state == ReadServerHello
    ensures ClientGoesOn(p, x, ClientDo(p, x, retry))
  {
    hide Hashed, Between, OwnItems, ItemAt;
    ReadOn(p, x, 1, true, peer);
  }

  lemma DoReadCertificate(p: Params, x: Client, retry: bool, peer: nat)
    requires p.Agreed() && ClientOK(p, x) && x.wait == Ready && Along(p, x, ClientAt(p, x), true)
    requires peer <= Length(p) && Buffered(p, x, ClientAt(p, x), peer)
    requires x.state == ReadServerCertificate
    ensures ClientGoesOn(p, x, ClientDo(p, x, retry))
  {
    hide Hashed, Between, OwnItems, ItemAt;
    if !p.CertAuth() {
      Skip(p, x, 2, true);
    } else {
      ReadOn(p, x, 2, true, peer);
    }
  }

  lemma DoReadStatus(p: Params, x: Client, retry: bool, peer: nat)
    requires p.Agreed() && ClientOK(p, x) && x.wait == Ready && Along(p, x, ClientAt(p, x), true)
    requires peer <= Length(p) && Buffered(p, x, ClientAt(p, x), peer)
    requires x.state == ReadCertificateStatus
    ensures ClientGoesOn(p, x, ClientDo(p, x, retry))
  {
    hide Hashed, Between, OwnItems, ItemAt;
    if !p.ocsp {
      Skip(p, x, 3, true);
    } else {
      ReadOn(p, x, 3, true, peer);
    }
  }

  /** Without a ServerKeyExchange the next message is a CertificateRequest or ServerHelloDone. */
  lemma AfterKeyExchange(p: Params, x: Client, peer: nat)
    requires !p.resume && !p.SendsSke() && peer <= Length(p) && Buffered(p, x, 4, peer) && x.inbuf.Some?
    ensures x.inbuf.value.typ == if p.certRequest then CertificateRequest else ServerHelloDone
  {
    hide Hashed, Between, OwnItems, Buffered;
    FrontIsBuffered(p, x, 4, peer);
    FrontIsBuffered(p, x, 5, peer);
    if !p.certRequest { FrontIsBuffered(p, x, 6, peer); }
  }

  lemma DoReadKeyExchange(p: Params, x: Client, retry: bool, peer: nat)
    requires p.Agreed() && ClientOK(p, x) && x.wait == Ready && Along(p, x, ClientAt(p, x), true)
    requires peer <= Length(p) && Buffered(p, x, ClientAt(p, x), peer)
    requires x.state == ReadServerKeyExchange
    ensures ClientGoesOn(p, x, ClientDo(p, x, retry))
  {
    hide Hashed, Between, OwnItems, ItemAt;
    if p.SendsSke() {
      ReadOn(p, x, 4, true, peer);
    } else {
      if x.inbuf.Some? { AfterKeyExchange(p, x, peer); }
      Stay(p, x, 4, true);
      Skip(p, x, 4, true);
    }
  }

  /** Without a CertificateRequest the next message is ServerHelloDone. */
  lemma AfterRequest(p: Params, x: Client, peer: nat)
    requires !p.resume && !p.certRequest && peer <= Length(p) && Buffered(p, x, 5, peer) && x.inbuf.Some?
    ensures x.inbuf.value.typ == ServerHelloDone
  {
    hide Hashed, Between, OwnItems, Buffered;
    FrontIsBuffered(p, x, 5, peer);
    FrontIsBuffered(p, x, 6, peer);
  }

  lemma DoReadRequest(p: Params, x: Client, retry: bool, peer: nat)
    requires p.Agreed() && ClientOK(p, x) && x.wait == Ready && Along(p, x, ClientAt(p, x), true)
    requires peer <= Length(p) && Buffered(p, x, ClientAt(p, x), peer)
    requires x.state == ReadCertificateRequest
    ensures ClientGoesOn(p, x, ClientDo(p, x, retry))
  {
    hide Hashed, Between, OwnItems, ItemAt;
    if p.certRequest {
      ReadOn(p, x, 5, true, peer);
    } else {
      if x.inbuf.Some? { AfterRequest(p, x, peer); }
      Stay(p, x, 5, true);
      Skip(p, x, 5, true);
    }
  }

  lemma DoReadDone(p: Params, x: Client, retry: bool, peer: nat)
    requires p.Agreed() && ClientOK(p, x) && x.wait == Ready && Along(p, x, ClientAt(p, x), true)
    requires peer <= Length(p) && Buffered(p, x, ClientAt(p, x), peer)
    requires x.state == ReadServerHelloDone
    ensures ClientGoesOn(p, x, ClientDo(p, x, retry))
  {
    hide Hashed, Between, OwnItems, ItemAt;
    ReadOn(p, x, 6, true, peer);
  }

  lemma DoNoTicket(p: Params, x: Client, retry: bool, peer: nat)
    requires p.Agreed() && ClientOK(p, x) && x.wait == Ready && Along(p, x, ClientAt(p, x), true)
    requires peer <= Length(p) && Buffered(p, x, ClientAt(p, x), peer)
    requires x.state == ReadSessionTicket && !p.ticket
    ensures ClientGoesOn(p, x, ClientDo(p, x, retry))
  {
    hide Hashed, Between, OwnItems, ItemAt;
    var i := ClientAt(p, x);
    if x.inbuf.Some? { FrontIsBuffered(p, x, i, peer); }
    NothingBeforeCcs(p, x, i + 1, peer);
    Skip(p, x, i, true);
  }

  lemma DoReadTicket(p: Params, x: Client, retry: bool, peer: nat)
    requires p.Agreed() && ClientOK(p, x) && x.wait == Ready && Along(p, x, ClientAt(p, x), true)
    requires peer <= Length(p) && Buffered(p, x, ClientAt(p, x), peer)
    requires x.state == ReadSessionTicket && p.ticket
    ensures ClientGoesOn(p, x, ClientDo(p, x, retry))
  {
    hide Hashed, Between, OwnItems, ItemAt;
    var i := ClientAt(p, x);
    ReadOn(p, x, i, true, peer);
  }

  lemma DoReadFinished(p: Params, x: Client, retry: bool, peer: nat)
    requires p.Agreed() && ClientOK(p, x) && x.wait == Ready && Along(p, x, ClientAt(p, x), true)
    requires peer <= Length(p) && Buffered(p, x, ClientAt(p, x), peer)
    requires x.state == ReadServerFinished
    ensures ClientGoesOn(p, x, ClientDo(p, x, retry))
  {
    hide Hashed, Between, OwnItems, ItemAt;
    var i := ClientAt(p, x);
    ReadOn(p, x, i, true, peer);
  }

  /** Whatever state the client is in: the message in its buffer is one it accepts, and it moves on along the script. */
  lemma ClientNeverRejects(p: Params, x: Client, retry: bool, peer: nat)
    requires p.Agreed() && ClientOK(p, x) && x.wait == Ready && Along(p, x, ClientAt(p, x), true)
    requires peer <= Length(p) && Buffered(p, x, ClientAt(p, x), peer)
    ensures ClientGoesOn(p, x, ClientDo(p, x, retry))
  {
    hide ClientOK, Along, Buffered, ClientGoesOn, ClientDo, ClientAt;
    match x.state
    case StartConnect => DoHello(p, x, retry);
    case EnterEarlyData => DoHello(p, x, retry);
    case ReadServerHello => DoReadHello(p, x, retry, peer);
    case ReadServerCertificate => DoReadCertificate(p, x, retry, peer);
    case ReadCertificateStatus => DoReadStatus(p, x, retry, peer);
    case ReadServerKeyExchange => DoReadKeyExchange(p, x, retry, peer);
    case ReadCertificateRequest => DoReadRequest(p, x, retry, peer);
    case ReadServerHelloDone => DoReadDone(p, x, retry, peer);
    case SendClientCertificate => DoSendCertificate(p, x, retry);
    case SendClientKeyExchange => DoSendKeyExchange(p, x, retry);
    case SendClientCertificateVerify => DoSendVerify(p, x, retry);
    case SendClientFinished => DoSendFinished(p, x, retry);
    case ReadSessionTicket => if p.ticket { DoReadTicket(p, x, retry, peer); } else { DoNoTicket(p, x, retry, peer); }
    case ReadServerFinished => DoReadFinished(p, x, retry, peer);
    case VerifyServerCertificate => DoVerify(p, x, retry);
    case ProcessChangeCipherSpec => DoVerify(p, x, retry);
    case _ => DoFinish(p, x, retry);
  }

  /** What a waiting client waits for: the next used place, which is the server's. */
  lemma ClientNext(p: Params, x: Client) returns (n: nat)
    requires p.Agreed() && ClientOK(p, x) && (x.wait == ReadMessage || x.wait == ReadCcs)
    ensures NextIs(p, ClientAt(p, x), n) && !FromClient(Place(p, n))
    ensures x.wait == ReadMessage ==> Place(p, n) != SCcs
    ensures x.wait == ReadCcs ==> Place(p, n) == SCcs && n == ClientAt(p, x)
  {
    n := ClientAt(p, x);
    if x.state == ReadServerKeyExchange {
      n := if p.SendsSke() then 4 else if p.certRequest then 5 else 6;
    } else if x.state == ReadCertificateRequest {
      n := if p.certRequest then 5 else 6;
    }
  }
}
