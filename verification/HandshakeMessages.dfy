/** The messages of a handshake, listed from what the two sides agreed on (sections 7.3 and 7.4 of RFC 5246): what each side
    sends, what each hashes, and what each refuses. */
module HandshakeMessages {
  import opened Bits
  import opened HandshakeScript
  import opened HandshakeRun
  import HC = HandshakeClient
  import HS = HandshakeServer

  function C(typ: MsgType): Item { Handshake(Msg(true, typ, [])) }

  function S(typ: MsgType): Item { Handshake(Msg(false, typ, [])) }

  /** An item without what a Finished has hashed. */
  function Name(i: Item): Item {
    if i.Handshake? then Handshake(Msg(i.msg.fromClient, i.msg.typ, [])) else i
  }

  function Names(items: seq<Item>): (r: seq<Item>)
    ensures |r| == |items|
  {
    seq(|items|, k requires 0 <= k < |items| => Name(items[k]))
  }

  function Plus(l: seq<Item>, cond: bool, i: Item): seq<Item> {
    if cond then l + [i] else l
  }

  /** All that a server sends. */
  function ServerSends(p: Params): seq<Item> {
    var l := [S(ServerHello)];
    if p.resume then Plus(l, p.ticket, S(NewSessionTicket)) + [Ccs(false)] + [S(Finished)]
    else
      var l := Plus(l, p.keyExchange == Rsa || (p.keyExchange == Ecdhe && !p.pskAuth), S(Certificate));
      var l := Plus(l, p.ocsp, S(CertificateStatus));
      var l := Plus(l, p.keyExchange == Ecdhe || (p.pskAuth && p.pskHint), S(ServerKeyExchange));
      var l := Plus(l, p.certRequest, S(CertificateRequest)) + [S(ServerHelloDone)];
      Plus(l, p.ticket, S(NewSessionTicket)) + [Ccs(false)] + [S(Finished)]
  }

  /** All that a client sends. */
  function ClientSends(p: Params): seq<Item> {
    var l := [C(ClientHello)];
    var l := if p.resume then l
             else
               var l := Plus(l, p.certRequest, C(Certificate)) + [C(ClientKeyExchange)];
               Plus(l, p.certRequest && p.clientHasCert, C(CertificateVerify));
    Plus(Plus(l + [Ccs(true)], p.npn, C(NextProto)), p.channelId, C(ChannelId)) + [C(Finished)]
  }

  /** All that both hash, in the order of the wire; a ChangeCipherSpec is no handshake message. */
  function BothHash(p: Params): seq<Item> {
    var l := [C(ClientHello)] + [S(ServerHello)];
    if p.resume then
      var l := Plus(l, p.ticket, S(NewSessionTicket)) + [S(Finished)];
      Plus(Plus(l, p.npn, C(NextProto)), p.channelId, C(ChannelId)) + [C(Finished)]
    else
      var l := Plus(l, p.keyExchange == Rsa || (p.keyExchange == Ecdhe && !p.pskAuth), S(Certificate));
      var l := Plus(l, p.ocsp, S(CertificateStatus));
      var l := Plus(l, p.keyExchange == Ecdhe || (p.pskAuth && p.pskHint), S(ServerKeyExchange));
      var l := Plus(l, p.certRequest, S(CertificateRequest)) + [S(ServerHelloDone)];
      var l := Plus(l, p.certRequest, C(Certificate)) + [C(ClientKeyExchange)];
      var l := Plus(l, p.certRequest && p.clientHasCert, C(CertificateVerify));
      var l := Plus(Plus(l, p.npn, C(NextProto)), p.channelId, C(ChannelId)) + [C(Finished)];
      Plus(l, p.ticket, S(NewSessionTicket)) + [S(Finished)]
  }

  // ----- one place at a time -----

  lemma NamesMore(items: seq<Item>, i: Item)
    ensures Names(items + [i]) == Names(items) + [Name(i)]
  {
  }

  function Hashes(p: Params, i: nat): seq<Item>
    requires i <= Length(p)
  {
    var h := Hashed(p, i);
    seq(|h|, k requires 0 <= k < |h| => Handshake(h[k]))
  }

  /** What place `i` adds to the two logs and to the transcript. */
  lemma PlaceAdds(p: Params, i: nat)
    requires i < Length(p)
    ensures var k, it := Place(p, i), Name(ItemAt(p, i));
      && (forall client :: Names(OwnItems(p, i + 1, client))
            == Plus(Names(OwnItems(p, i, client)), Used(p, k) && FromClient(k) == client, it))
      && Names(Hashes(p, i + 1)) == Plus(Names(Hashes(p, i)), Used(p, k) && k != CCcs && k != SCcs, it)
  {
    hide Place, Used, FromClient;
    StepOn(p, i);
    var it := ItemAt(p, i);
    forall client ensures Names(OwnItems(p, i + 1, client))
        == Plus(Names(OwnItems(p, i, client)), Used(p, Place(p, i)) && FromClient(Place(p, i)) == client, Name(it)) {
      if UsedAt(p, i) && FromClient(Place(p, i)) == client { NamesMore(OwnItems(p, i, client), it); }
    }
    if UsedAt(p, i) && it.Handshake? {
      NamesMore(Hashes(p, i), it);
      assert Hashes(p, i + 1) == Hashes(p, i) + [it];
    }
  }

  function NameAt(p: Params, i: nat): Item
    requires i < Length(p)
  {
    var k := Place(p, i);
    if k == CCcs || k == SCcs then Ccs(FromClient(k)) else if FromClient(k) then C(TypeOf(k)) else S(TypeOf(k))
  }

  lemma NamedAt(p: Params, i: nat)
    requires i < Length(p)
    ensures Name(ItemAt(p, i)) == NameAt(p, i)
  {
    hide Place, FromClient, TypeOf, Hashed;
  }

  /** The logs and the transcript at place `i`, and then the item of the place. */
  ghost predicate At(p: Params, i: nat, client: seq<Item>, server: seq<Item>, both: seq<Item>) {
    && i <= Length(p) && Names(OwnItems(p, i, true)) == client && Names(OwnItems(p, i, false)) == server
    && Names(Hashes(p, i)) == both
  }

  lemma FromTheClient(p: Params, i: nat, k: Kind, used: bool, client: seq<Item>, server: seq<Item>, both: seq<Item>)
    requires i < Length(p) && At(p, i, client, server, both)
    requires k == Place(p, i) && FromClient(k) && k != CCcs && k != SCcs && used == Used(p, k)
    ensures At(p, i + 1, Plus(client, used, C(TypeOf(k))), server, Plus(both, used, C(TypeOf(k))))
  {
    hide Place, FromClient, Used, TypeOf, OwnItems, Hashes, Names;
    PlaceAdds(p, i);
    NamedAt(p, i);
  }

  lemma FromTheServer(p: Params, i: nat, k: Kind, used: bool, client: seq<Item>, server: seq<Item>, both: seq<Item>)
    requires i < Length(p) && At(p, i, client, server, both)
    requires k == Place(p, i) && !FromClient(k) && k != CCcs && k != SCcs && used == Used(p, k)
    ensures At(p, i + 1, client, Plus(server, used, S(TypeOf(k))), Plus(both, used, S(TypeOf(k))))
  {
    hide Place, FromClient, Used, TypeOf, OwnItems, Hashes, Names;
    PlaceAdds(p, i);
    NamedAt(p, i);
  }

  /** A message that is always there. */
  lemma Always(p: Params, i: nat, k: Kind, client: seq<Item>, server: seq<Item>, both: seq<Item>)
    requires i < Length(p) && At(p, i, client, server, both)
    requires k == Place(p, i) && k != CCcs && k != SCcs && Used(p, k)
    ensures FromClient(k) ==> At(p, i + 1, client + [C(TypeOf(k))], server, both + [C(TypeOf(k))])
    ensures !FromClient(k) ==> At(p, i + 1, client, server + [S(TypeOf(k))], both + [S(TypeOf(k))])
  {
    hide Place, FromClient, Used, TypeOf, At;
    if FromClient(k) {
      FromTheClient(p, i, k, true, client, server, both);
    } else {
      FromTheServer(p, i, k, true, client, server, both);
    }
  }

  lemma CcsFrom(p: Params, i: nat, fromClient: bool, client: seq<Item>, server: seq<Item>, both: seq<Item>)
    requires i < Length(p) && At(p, i, client, server, both) && Place(p, i) == if fromClient then CCcs else SCcs
    ensures At(p, i + 1, if fromClient then client + [Ccs(true)] else client,
               if fromClient then server else server + [Ccs(false)], both)
  {
    hide Place, OwnItems, Hashes, Names;
    PlaceAdds(p, i);
    NamedAt(p, i);
  }

  lemma FullPlaces(p: Params)
    requires !p.resume
    ensures Length(p) == 17
    ensures Place(p, 0) == CHello && Place(p, 1) == SHello && Place(p, 2) == SCert
    ensures Place(p, 3) == SStatus && Place(p, 4) == SKeyEx && Place(p, 5) == SRequest
    ensures Place(p, 6) == SHelloDone && Place(p, 7) == CCert && Place(p, 8) == CKeyEx
    ensures Place(p, 9) == CVerify && Place(p, 10) == CCcs && Place(p, 11) == CNextProto
    ensures Place(p, 12) == CChannelId && Place(p, 13) == CFinished && Place(p, 14) == STicket
    ensures Place(p, 15) == SCcs && Place(p, 16) == SFinished
  {
  }

  lemma ResumedPlaces(p: Params)
    requires p.resume
    ensures Length(p) == 9
    ensures Place(p, 0) == CHello && Place(p, 1) == SHello && Place(p, 2) == STicket
    ensures Place(p, 3) == SCcs && Place(p, 4) == SFinished
    ensures Place(p, 5) == CCcs && Place(p, 6) == CNextProto && Place(p, 7) == CChannelId && Place(p, 8) == CFinished
  {
  }

  lemma AtStart(p: Params)
    ensures At(p, 0, [], [], [])
  {
    hide Place, Used;
    assert Length(p) > 0;
  }

  lemma Hellos(p: Params)
    ensures At(p, 2, [C(ClientHello)], [S(ServerHello)], [C(ClientHello)] + [S(ServerHello)])
  {
    hide At;
    AtStart(p);
    Always(p, 0, CHello, [], [], []);
    assert [] + [C(ClientHello)] == [C(ClientHello)] && [] + [S(ServerHello)] == [S(ServerHello)];
    Always(p, 1, SHello, [C(ClientHello)], [], [C(ClientHello)]);
  }

  lemma ResumedHellos(p: Params) returns (c: seq<Item>, s: seq<Item>, b: seq<Item>)
    requires p.resume
    ensures c == [C(ClientHello)]
    ensures s == Plus([S(ServerHello)], p.ticket, S(NewSessionTicket)) + [Ccs(false)] + [S(Finished)]
    ensures b == Plus([C(ClientHello)] + [S(ServerHello)], p.ticket, S(NewSessionTicket)) + [S(Finished)]
    ensures At(p, 5, c, s, b)
  {
    hide At, Place;
    ResumedPlaces(p);
    Hellos(p);
    c, s, b := [C(ClientHello)], [S(ServerHello)], [C(ClientHello)] + [S(ServerHello)];
    FromTheServer(p, 2, STicket, p.ticket, c, s, b);
    s, b := Plus(s, p.ticket, S(NewSessionTicket)), Plus(b, p.ticket, S(NewSessionTicket));
    CcsFrom(p, 3, false, c, s, b);
    s := s + [Ccs(false)];
    Always(p, 4, SFinished, c, s, b);
    s, b := s + [S(Finished)], b + [S(Finished)];
  }

  lemma ResumedLists(p: Params)
    requires p.resume
    ensures At(p, Length(p), ClientSends(p), ServerSends(p), BothHash(p))
  {
    hide At, Place;
    ResumedPlaces(p);
    var c, s, b := ResumedHellos(p);
    CcsFrom(p, 5, true, c, s, b);
    c := c + [Ccs(true)];
    FromTheClient(p, 6, CNextProto, p.npn, c, s, b);
    c, b := Plus(c, p.npn, C(NextProto)), Plus(b, p.npn, C(NextProto));
    FromTheClient(p, 7, CChannelId, p.channelId, c, s, b);
    c, b := Plus(c, p.channelId, C(ChannelId)), Plus(b, p.channelId, C(ChannelId));
    Always(p, 8, CFinished, c, s, b);
  }

  /** Up to ServerKeyExchange in a full handshake. */
  lemma FullStart(p: Params) returns (c: seq<Item>, s: seq<Item>, b: seq<Item>)
    requires !p.resume && p.Agreed()
    ensures c == [C(ClientHello)]
    ensures
      var certs := p.keyExchange == Rsa || (p.keyExchange == Ecdhe && !p.pskAuth);
      && s == Plus(Plus([S(ServerHello)], certs, S(Certificate)), p.ocsp, S(CertificateStatus))
      && b == Plus(Plus([C(ClientHello)] + [S(ServerHello)], certs, S(Certificate)), p.ocsp, S(CertificateStatus))
    ensures At(p, 4, c, s, b)
  {
    hide At, Plus, Place;
    FullPlaces(p);
    Hellos(p);
    c, s, b := [C(ClientHello)], [S(ServerHello)], [C(ClientHello)] + [S(ServerHello)];
    var certs := p.keyExchange == Rsa || (p.keyExchange == Ecdhe && !p.pskAuth);
    FromTheServer(p, 2, SCert, certs, c, s, b);
    s, b := Plus(s, certs, S(Certificate)), Plus(b, certs, S(Certificate));
    FromTheServer(p, 3, SStatus, p.ocsp, c, s, b);
    s, b := Plus(s, p.ocsp, S(CertificateStatus)), Plus(b, p.ocsp, S(CertificateStatus));
  }

  /** From there to ServerHelloDone. */
  lemma FullMiddle(p: Params, c: seq<Item>, s0: seq<Item>, b0: seq<Item>) returns (s: seq<Item>, b: seq<Item>)
    requires !p.resume && p.Agreed() && At(p, 4, c, s0, b0)
    ensures
      var exchange := p.keyExchange == Ecdhe || (p.pskAuth && p.pskHint);
      && s == Plus(Plus(s0, exchange, S(ServerKeyExchange)), p.certRequest, S(CertificateRequest)) + [S(ServerHelloDone)]
      && b == Plus(Plus(b0, exchange, S(ServerKeyExchange)), p.certRequest, S(CertificateRequest)) + [S(ServerHelloDone)]
    ensures At(p, 7, c, s, b)
  {
    hide At, Plus, Place;
    FullPlaces(p);
    s, b := s0, b0;
    var exchange := p.keyExchange == Ecdhe || (p.pskAuth && p.pskHint);
    FromTheServer(p, 4, SKeyEx, exchange, c, s, b);
    s, b := Plus(s, exchange, S(ServerKeyExchange)), Plus(b, exchange, S(ServerKeyExchange));
    FromTheServer(p, 5, SRequest, p.certRequest, c, s, b);
    s, b := Plus(s, p.certRequest, S(CertificateRequest)), Plus(b, p.certRequest, S(CertificateRequest));
    Always(p, 6, SHelloDone, c, s, b);
    s, b := s + [S(ServerHelloDone)], b + [S(ServerHelloDone)];
  }

  /** The client's certificate, if asked for, and its key exchange. */
  lemma FullKeys(p: Params, c0: seq<Item>, s: seq<Item>, b0: seq<Item>) returns (c: seq<Item>, b: seq<Item>)
    requires !p.resume && p.Agreed() && At(p, 7, c0, s, b0)
    ensures c == Plus(c0, p.certRequest, C(Certificate)) + [C(ClientKeyExchange)]
    ensures b == Plus(b0, p.certRequest, C(Certificate)) + [C(ClientKeyExchange)]
    ensures At(p, 9, c, s, b)
  {
    hide At, Plus, Place;
    FullPlaces(p);
    c, b := c0, b0;
    FromTheClient(p, 7, CCert, p.certRequest, c, s, b);
    c, b := Plus(c, p.certRequest, C(Certificate)), Plus(b, p.certRequest, C(Certificate));
    Always(p, 8, CKeyEx, c, s, b);
    c, b := c + [C(ClientKeyExchange)], b + [C(ClientKeyExchange)];
  }

  /** From there to the client's Finished. */
  lemma FullLast(p: Params, c0: seq<Item>, s: seq<Item>, b0: seq<Item>) returns (c: seq<Item>, b: seq<Item>)
    requires !p.resume && p.Agreed() && At(p, 9, c0, s, b0)
    ensures
      var verify := p.certRequest && p.clientHasCert;
      && c == Plus(Plus(Plus(c0, verify, C(CertificateVerify)) + [Ccs(true)], p.npn, C(NextProto)), p.channelId,
                   C(ChannelId)) + [C(Finished)]
      && b == Plus(Plus(Plus(b0, verify, C(CertificateVerify)), p.npn, C(NextProto)), p.channelId, C(ChannelId))
              + [C(Finished)]
    ensures At(p, 14, c, s, b)
  {
    hide At, Plus, Place;
    FullPlaces(p);
    c, b := c0, b0;
    var verify := p.certRequest && p.clientHasCert;
    FromTheClient(p, 9, CVerify, verify, c, s, b);
    c, b := Plus(c, verify, C(CertificateVerify)), Plus(b, verify, C(CertificateVerify));
    CcsFrom(p, 10, true, c, s, b);
    c := c + [Ccs(true)];
    FromTheClient(p, 11, CNextProto, p.npn, c, s, b);
    c, b := Plus(c, p.npn, C(NextProto)), Plus(b, p.npn, C(NextProto));
    FromTheClient(p, 12, CChannelId, p.channelId, c, s, b);
    c, b := Plus(c, p.channelId, C(ChannelId)), Plus(b, p.channelId, C(ChannelId));
    Always(p, 13, CFinished, c, s, b);
    c, b := c + [C(Finished)], b + [C(Finished)];
  }

  /** The server's last flight. */
  lemma FullTail(p: Params, c: seq<Item>, s0: seq<Item>, b0: seq<Item>) returns (s: seq<Item>, b: seq<Item>)
    requires !p.resume && p.Agreed() && At(p, 14, c, s0, b0)
    ensures s == Plus(s0, p.ticket, S(NewSessionTicket)) + [Ccs(false)] + [S(Finished)]
    ensures b == Plus(b0, p.ticket, S(NewSessionTicket)) + [S(Finished)]
    ensures At(p, 17, c, s, b)
  {
    hide At, Plus, Place;
    FullPlaces(p);
    s, b := s0, b0;
    FromTheServer(p, 14, STicket, p.ticket, c, s, b);
    s, b := Plus(s, p.ticket, S(NewSessionTicket)), Plus(b, p.ticket, S(NewSessionTicket));
    CcsFrom(p, 15, false, c, s, b);
    s := s + [Ccs(false)];
    Always(p, 16, SFinished, c, s, b);
    s, b := s + [S(Finished)], b + [S(Finished)];
  }

  lemma FullLists(p: Params)
    requires !p.resume && p.Agreed()
    ensures At(p, Length(p), ClientSends(p), ServerSends(p), BothHash(p))
  {
    hide At, Plus, Place;
    FullPlaces(p);
    var c, s, b := FullStart(p);
    s, b := FullMiddle(p, c, s, b);
    c, b := FullKeys(p, c, s, b);
    c, b := FullLast(p, c, s, b);
    s, b := FullTail(p, c, s, b);
  }

  // ----- every run -----

  lemma {:induction false} LogsGrow(p: Params, i: nat, n: nat, client: bool)
    requires i <= n <= Length(p)
    ensures Names(OwnItems(p, i, client)) <= Names(OwnItems(p, n, client))
    decreases n - i
  {
    hide OwnItems, Names, Used, FromClient, Place;
    if i < n {
      LogsGrow(p, i, n - 1, client);
      PlaceAdds(p, n - 1);
    }
  }

  lemma AllLists(p: Params)
    requires p.Agreed()
    ensures At(p, Length(p), ClientSends(p), ServerSends(p), BothHash(p))
  {
    if p.resume { ResumedLists(p); } else { FullLists(p); }
  }

  /** In every run, for every choice of parameters: what a side has sent so far is the beginning of its list, and when it is
      done it has sent all of the list and hashed all that both hash. */
  lemma EachSendsItsList(p: Params, links: seq<Link>, i: nat)
    requires p.Agreed() && Run(p, links) && i < |links|
    ensures var c, s := links[i].client, links[i].server;
      && Names(c.log) <= ClientSends(p) && Names(s.log) <= ServerSends(p)
      && (c.state.Done? ==> Names(c.log) == ClientSends(p) && NamesOf(c.transcript) == BothHash(p))
      && (s.state.Done? ==> Names(s.log) == ServerSends(p) && NamesOf(s.transcript) == BothHash(p))
  {
    hide OwnItems, Names, ClientSends, ServerSends, BothHash, Hashed, HC.ClientOK, HS.ServerOK, InFlight;
    var l := links[i];
    RunKeeps(p, links, i);
    Bounds(p, l);
    AllLists(p);
    LogsGrow(p, CAt(p, l), Length(p), true);
    LogsGrow(p, SAt(p, l), Length(p), false);
  }

  /** A transcript without what a Finished has hashed. */
  function NamesOf(t: seq<Msg>): seq<Item> {
    Names(seq(|t|, k requires 0 <= k < |t| => Handshake(t[k])))
  }

  // ----- what is refused -----

  /** What a client refuses, by the state it is in. */
  predicate ClientRefuses(p: Params, s: HC.ClientState, m: Msg, transcript: seq<Msg>) {
    match s
    case ReadServerHello => m.typ != ServerHello
    case ReadServerCertificate => !p.pskAuth && m.typ != Certificate
    case ReadServerKeyExchange =>
      if m.typ == ServerKeyExchange then p.keyExchange == Rsa else p.keyExchange == Ecdhe
    case ReadCertificateRequest => !p.pskAuth && m.typ != CertificateRequest && m.typ != ServerHelloDone
    case ReadServerHelloDone => m.typ != ServerHelloDone
    case ReadSessionTicket => p.ticket && m.typ != NewSessionTicket
    case ProcessChangeCipherSpec => true
    case ReadServerFinished => m.typ != Finished || m.hashed != transcript
    case _ => false
  }

  /** What it takes, and hashes. */
  predicate ClientTakes(p: Params, s: HC.ClientState, m: Msg) {
    match s
    case ReadServerHello => m.typ == ServerHello
    case ReadServerCertificate => !p.pskAuth && m.typ == Certificate
    case ReadCertificateStatus => p.ocsp && m.typ == CertificateStatus
    case ReadServerKeyExchange => m.typ == ServerKeyExchange && p.keyExchange != Rsa
    case ReadCertificateRequest => !p.pskAuth && m.typ == CertificateRequest
    case ReadServerHelloDone => m.typ == ServerHelloDone
    case ReadSessionTicket => p.ticket && m.typ == NewSessionTicket
    case ReadServerFinished => m.typ == Finished
    case _ => false
  }

  predicate ServerRefuses(p: Params, s: HS.ServerState, flag: bool, m: Msg, transcript: seq<Msg>) {
    match s
    case ReadClientHello => m.typ != ClientHello
    case ReadClientCertificate => p.certRequest && m.typ != Certificate
    case ReadClientKeyExchange => m.typ != ClientKeyExchange
    case ReadClientCertificateVerify => flag && m.typ != CertificateVerify
    case ProcessChangeCipherSpec => true
    case ReadNextProto => p.npn && m.typ != NextProto
    case ReadChannelId => p.channelId && m.typ != ChannelId
    case ReadClientFinished => m.typ != Finished || m.hashed != transcript
    case _ => false
  }

  predicate ServerTakes(p: Params, s: HS.ServerState, flag: bool, m: Msg) {
    match s
    case SelectParameters => true
    case ReadClientCertificate => p.certRequest && m.typ == Certificate
    case ReadClientKeyExchange => m.typ == ClientKeyExchange
    case ReadClientCertificateVerify => flag && m.typ == CertificateVerify
    case ReadNextProto => p.npn && m.typ == NextProto
    case ReadChannelId => p.channelId && m.typ == ChannelId
    case ReadClientFinished => m.typ == Finished
    case _ => false
  }

  lemma AddLeaves<T>(x: Side<T>, cond: bool, client: bool, typ: MsgType)
    ensures Add(x, cond, client, typ).inbuf == x.inbuf && Add(x, cond, client, typ).wait == x.wait
    ensures AddCcs(x, client).inbuf == x.inbuf && AddCcs(x, client).wait == x.wait
  {
  }

  lemma ClientSendsOnly(p: Params, x: HC.Client)
    ensures var y := HC.SendFinishedFlight(p, x); y.inbuf == x.inbuf && y.wait == x.wait
  {
    hide Add, AddCcs;
    AddLeaves(x, true, true, Finished);
    var y := AddCcs(x, true);
    AddLeaves(y, p.npn, true, NextProto);
    var z := Add(y, p.npn, true, NextProto);
    AddLeaves(z, p.channelId, true, ChannelId);
    AddLeaves(Add(z, p.channelId, true, ChannelId), true, true, Finished);
  }

  /** With a message in the buffer a client fails exactly if it is one to be refused; a message that is not to be taken in
      this state stays in the buffer, and one that is has been hashed. */
  lemma ClientMeets(p: Params, x: HC.Client)
    requires x.wait == Ready && x.inbuf.Some?
    ensures var m, y := x.inbuf.value, HC.ClientDo(p, x, false);
      && (y.wait == Failed <==> ClientRefuses(p, x.state, m, x.transcript))
      && (y.wait != Failed ==>
            if ClientTakes(p, x.state, m) then y.inbuf == None && y.transcript == x.transcript + [m] else y.inbuf == x.inbuf)
  {
    hide Add, HC.SendFinishedFlight;
    match x.state
    case StartConnect => AddLeaves(x, true, true, ClientHello);
    case SendClientCertificate => AddLeaves(x, true, true, Certificate);
    case SendClientKeyExchange => AddLeaves(x, true, true, ClientKeyExchange);
    case SendClientCertificateVerify => AddLeaves(x, true, true, CertificateVerify);
    case SendClientFinished => ClientSendsOnly(p, x);
    case _ =>
  }

  lemma ServerSendsOnly(p: Params, x: HS.Server)
    ensures var y := HS.SendFinishedFlight(p, x); y.inbuf == x.inbuf && y.wait == x.wait
    ensures var y := HS.SendCertificates(p, x); y.inbuf == x.inbuf && y.wait == x.wait
    ensures var y := HS.SendDone(p, x); y.inbuf == x.inbuf && y.wait == x.wait
  {
    hide AddCcs;
    AddLeaves(x, p.ticket, false, NewSessionTicket);
    var y := Add(x, p.ticket, false, NewSessionTicket);
    AddLeaves(y, true, false, Finished);
    AddLeaves(AddCcs(y, false), true, false, Finished);
  }

  lemma ServerMeets(p: Params, x: HS.Server)
    requires x.wait == Ready && x.inbuf.Some?
    ensures var m, y := x.inbuf.value, HS.ServerDo(p, x, false);
      && (y.wait == Failed <==> ServerRefuses(p, x.state, x.flag, m, x.transcript))
      && (y.wait != Failed ==>
            if ServerTakes(p, x.state, x.flag, m) then y.inbuf == None && y.transcript == x.transcript + [m]
            else y.inbuf == x.inbuf)
  {
    hide Add, HS.SendFinishedFlight, HS.SendCertificates, HS.SendDone;
    ServerSendsOnly(p, x);
    match x.state
    case SendServerHello => AddLeaves(x, true, false, ServerHello);
    case SendServerKeyExchange => AddLeaves(x, true, false, ServerKeyExchange);
    case _ =>
  }

  /** What a waiting side makes of the next thing from the other side: a message where a ChangeCipherSpec is due, or the
      other way round, is the end of the handshake. */
  lemma WireMeets<S>(x: Side<S>, wire: seq<Item>, ch: Choice)
    requires wire != [] && (x.wait == ReadMessage || x.wait == ReadCcs)
    ensures var r := Resolve(x, wire, ch);
      && r.1 == wire[1..] && r.2 == []
      && (r.0.wait == Failed <==> (wire[0].Ccs? <==> x.wait == ReadMessage))
      && (r.0.wait != Failed ==>
            r.0.wait == Ready && r.0.inbuf == if x.wait == ReadMessage then Some(wire[0].msg) else x.inbuf)
  {
  }

  // ----- what may be put off -----

  /** Where a client waits for the application: to verify or choose a certificate, to sign, for a Channel ID, and under False
      Start. */
  predicate ClientPauses(p: Params, x: HC.Client) {
    match x.state
    case VerifyServerCertificate => !p.pskAuth
    case SendClientCertificate => x.flag
    case SendClientCertificateVerify => x.flag && p.clientHasCert
    case SendClientFinished => p.channelId
    case FinishFlight => !p.resume
    case _ => false
  }

  /** Where a server does: for a ClientHello, to choose a certificate or a session, to sign, to verify, and to decrypt. */
  predicate ServerPauses(p: Params, x: HS.Server) {
    match x.state
    case ReadClientHello => x.inbuf.Some? && x.inbuf.value.typ == ClientHello
    case SelectCertificate => x.inbuf.Some?
    case SelectParameters => x.inbuf.Some?
    case SendServerKeyExchange => !p.pskAuth && p.keyExchange == Ecdhe
    case VerifyClientCertificate => x.flag
    case ReadClientKeyExchange => x.inbuf.Some? && x.inbuf.value.typ == ClientKeyExchange && p.keyExchange == Rsa
    case _ => false
  }

  /** A side is put off exactly there, if the application is not ready. */
  lemma ClientPutOff(p: Params, x: HC.Client, retry: bool)
    requires x.wait == Ready
    ensures HC.ClientDo(p, x, retry).wait == Paused <==> retry && ClientPauses(p, x)
  {
    hide Add, HC.SendFinishedFlight;
    match x.state
    case StartConnect => AddLeaves(x, true, true, ClientHello);
    case SendClientCertificate => AddLeaves(x, true, true, Certificate);
    case SendClientKeyExchange => AddLeaves(x, true, true, ClientKeyExchange);
    case SendClientCertificateVerify => AddLeaves(x, true, true, CertificateVerify);
    case SendClientFinished => ClientSendsOnly(p, x);
    case _ =>
  }

  lemma ServerPutOff(p: Params, x: HS.Server, retry: bool)
    requires x.wait == Ready
    ensures HS.ServerDo(p, x, retry).wait == Paused <==> retry && ServerPauses(p, x)
  {
    hide Add, HS.SendFinishedFlight, HS.SendCertificates, HS.SendDone;
    ServerSendsOnly(p, x);
    match x.state
    case SendServerHello => AddLeaves(x, true, false, ServerHello);
    case SendServerKeyExchange => AddLeaves(x, true, false, ServerKeyExchange);
    case _ =>
  }
}
