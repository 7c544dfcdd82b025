/** The messages of a TLS 1.0-1.2 handshake in the order of section 7.3 of RFC 5246, for each choice of parameters
    the two sides can agree on, and what a side of the handshake keeps. */
module HandshakeScript {
  import opened Bits

  datatype MsgType =
    | ClientHello | ServerHello | Certificate | CertificateStatus | ServerKeyExchange | CertificateRequest
    | ServerHelloDone | ClientKeyExchange | CertificateVerify | NextProto | ChannelId | NewSessionTicket | Finished

  /** A Finished message carries the transcript its sender has hashed; the others are known by type and sender. */
  datatype Msg = Msg(fromClient: bool, typ: MsgType, hashed: seq<Msg>)

  datatype Item = Ccs(client: bool) | Handshake(msg: Msg)

  datatype KeyExchange = Rsa | Ecdhe | Psk

  /** What ClientHello and ServerHello have settled, and what the certificates will be. */
  datatype Params = Params(
    resume: bool, keyExchange: KeyExchange, pskAuth: bool, pskHint: bool, ocsp: bool,
    certRequest: bool, clientHasCert: bool, ticket: bool, npn: bool, channelId: bool)
  {
    /** Combinations that exist: RSA goes with certificates and plain PSK with PSK; a status and a request for a
        certificate need certificates and a full handshake. */
    predicate Agreed() {
      && (keyExchange == Rsa ==> !pskAuth) && (keyExchange == Psk ==> pskAuth)
      && (ocsp ==> !pskAuth && !resume) && (certRequest ==> !pskAuth && !resume)
    }

    /** `ssl_cipher_uses_certificate_auth`. */
    predicate CertAuth() { !pskAuth }

    /** `ssl_cipher_requires_server_key_exchange`. */
    predicate RequiresSke() { keyExchange == Ecdhe }

    predicate SendsSke() { RequiresSke() || (pskAuth && pskHint) }
  }

  // ----- the script -----

  datatype Kind =
    | CHello | SHello | SCert | SStatus | SKeyEx | SRequest | SHelloDone
    | CCert | CKeyEx | CVerify | CCcs | CNextProto | CChannelId | CFinished
    | STicket | SCcs | SFinished

  function Length(p: Params): nat { if p.resume then 9 else 17 }

  /** The places of the script in order; a place may be empty. */
  function Place(p: Params, i: nat): Kind
    requires i < Length(p)
  {
    if p.resume then
      match i
      case 0 => CHello case 1 => SHello case 2 => STicket case 3 => SCcs case 4 => SFinished
      case 5 => CCcs case 6 => CNextProto case 7 => CChannelId case _ => CFinished
    else
      match i
      case 0 => CHello case 1 => SHello case 2 => SCert case 3 => SStatus case 4 => SKeyEx case 5 => SRequest
      case 6 => SHelloDone case 7 => CCert case 8 => CKeyEx case 9 => CVerify case 10 => CCcs case 11 => CNextProto
      case 12 => CChannelId case 13 => CFinished case 14 => STicket case 15 => SCcs case _ => SFinished
  }

  predicate FromClient(k: Kind) {
    k in {CHello, CCert, CKeyEx, CVerify, CCcs, CNextProto, CChannelId, CFinished}
  }

  predicate Used(p: Params, k: Kind) {
    match k
    case SCert => p.CertAuth()
    case SStatus => p.ocsp
    case SKeyEx => p.SendsSke()
    case SRequest => p.certRequest
    case CCert => p.certRequest
    case CVerify => p.certRequest && p.clientHasCert
    case CNextProto => p.npn
    case CChannelId => p.channelId
    case STicket => p.ticket
    case _ => true
  }

  function TypeOf(k: Kind): MsgType
    requires k != CCcs && k != SCcs
  {
    match k
    case CHello => ClientHello case SHello => ServerHello case SCert => Certificate case SStatus => CertificateStatus
    case SKeyEx => ServerKeyExchange case SRequest => CertificateRequest case SHelloDone => ServerHelloDone
    case CCert => Certificate case CKeyEx => ClientKeyExchange case CVerify => CertificateVerify
    case CNextProto => NextProto case CChannelId => ChannelId case CFinished => Finished
    case STicket => NewSessionTicket case SFinished => Finished
  }

  predicate UsedAt(p: Params, i: nat)
    requires i < Length(p)
  {
    Used(p, Place(p, i))
  }

  /** What stands at place `i`. */
  function ItemAt(p: Params, i: nat): Item
    requires i < Length(p)
    decreases i, 1
  {
    var k := Place(p, i);
    if k == CCcs || k == SCcs then Ccs(FromClient(k))
    else Handshake(Msg(FromClient(k), TypeOf(k), if TypeOf(k) == Finished then Hashed(p, i) else []))
  }

  /** The transcript of the first `i` places: messages, but no ChangeCipherSpec. */
  function Hashed(p: Params, i: nat): seq<Msg>
    requires i <= Length(p)
    decreases i, 0
  {
    if i == 0 then []
    else if UsedAt(p, i - 1) && ItemAt(p, i - 1).Handshake? then Hashed(p, i - 1) + [ItemAt(p, i - 1).msg]
    else Hashed(p, i - 1)
  }

  /** The items at places `lo` up to `hi`. */
  function Between(p: Params, lo: nat, hi: nat): seq<Item>
    requires hi <= Length(p)
    decreases hi - lo
  {
    if lo >= hi then []
    else (if UsedAt(p, lo) then [ItemAt(p, lo)] else []) + Between(p, lo + 1, hi)
  }

  lemma {:induction false} BetweenSplit(p: Params, lo: nat, mid: nat, hi: nat)
    requires lo <= mid <= hi <= Length(p)
    ensures Between(p, lo, hi) == Between(p, lo, mid) + Between(p, mid, hi)
    decreases mid - lo
  {
    hide UsedAt, ItemAt;
    if lo < mid { BetweenSplit(p, lo + 1, mid, hi); }
  }

  lemma BetweenOne(p: Params, i: nat)
    requires i < Length(p)
    ensures Between(p, i, i + 1) == if UsedAt(p, i) then [ItemAt(p, i)] else []
  {
    hide UsedAt, ItemAt;
  }

  /** The items of one side only. */
  ghost predicate OneSided(p: Params, lo: nat, hi: nat, client: bool)
    requires hi <= Length(p)
  {
    forall i :: lo <= i < hi && UsedAt(p, i) ==> FromClient(Place(p, i)) == client
  }

  // ----- one side of a handshake -----

  /** Why `ssl_run_handshake` left the state machine; `Paused` stands for an operation to be tried again. */
  datatype Wait = Ready | Flush | ReadMessage | ReadCcs | Paused | Failed

  /** `inbuf` is the message in the handshake buffer, `pending` the flight not yet flushed, `flag` is
      `cert_request` on the client and `peer_pubkey` on the server, `log` everything ever queued. */
  datatype Side<S> = Side(
    state: S, wait: Wait, inbuf: Option<Msg>, pending: seq<Item>, transcript: seq<Msg>, flag: bool, log: seq<Item>)

  function Goto<S>(x: Side<S>, state: S): Side<S> {
    x.(state := state)
  }

  function Await<S>(x: Side<S>, wait: Wait): Side<S> {
    x.(wait := wait)
  }

  /** `ssl_add_message_cbb`, if the condition holds. */
  function Add<S>(x: Side<S>, cond: bool, client: bool, typ: MsgType): Side<S> {
    if !cond then x
    else
      var m := Msg(client, typ, if typ == Finished then x.transcript else []);
      x.(pending := x.pending + [Handshake(m)], log := x.log + [Handshake(m)], transcript := x.transcript + [m])
  }

  /** `add_change_cipher_spec`. */
  function AddCcs<S>(x: Side<S>, client: bool): Side<S> {
    x.(pending := x.pending + [Ccs(client)], log := x.log + [Ccs(client)])
  }

  /** `ssl_hash_message` and `next_message`. */
  function Take<S>(x: Side<S>): Side<S>
    requires x.inbuf.Some?
  {
    x.(inbuf := None, transcript := x.transcript + [x.inbuf.value])
  }

  /** A state that takes exactly one type of message. */
  function Expect<S>(x: Side<S>, typ: MsgType, next: S): Side<S> {
    if x.inbuf.None? then Await(x, ReadMessage)
    else if x.inbuf.value.typ != typ then Await(x, Failed)
    else Goto(Take(x), next)
  }

  /** `ssl_get_finished`: the peer must have hashed what this side has hashed. */
  function ExpectFinished<S>(x: Side<S>, next: S): Side<S> {
    if x.inbuf.None? then Await(x, ReadMessage)
    else if x.inbuf.value.typ != Finished then Await(x, Failed)
    else if x.inbuf.value.hashed != x.transcript then Await(x, Failed)
    else Goto(Take(x), next)
  }

  // ----- how a side moves along the script -----

  /** A side that has taken and queued everything before place `at`. */
  ghost predicate Along<S>(p: Params, x: Side<S>, at: nat, client: bool) {
    at <= Length(p) && x.transcript == Hashed(p, at) && x.log == OwnItems(p, at, client)
  }

  /** The items a side has queued when it stands at place `at`. */
  ghost function OwnItems(p: Params, at: nat, client: bool): seq<Item>
    requires at <= Length(p)
  {
    if at == 0 then []
    else if UsedAt(p, at - 1) && FromClient(Place(p, at - 1)) == client then
      OwnItems(p, at - 1, client) + [ItemAt(p, at - 1)]
    else OwnItems(p, at - 1, client)
  }

  /** From place `a` to place `b`: queue one's own items and leave the buffer alone, or take the message in the buffer. */
  ghost predicate Moves<S>(p: Params, x: Side<S>, y: Side<S>, a: nat, b: nat, client: bool) {
    && a <= b <= Length(p)
    && (Sends(p, x, y, a, b, client) || (Takes(p, x, y, a, b) && OneSided(p, a, b, !client)))
  }

  ghost predicate Sends<S>(p: Params, x: Side<S>, y: Side<S>, a: nat, b: nat, client: bool)
    requires b <= Length(p)
  {
    y.inbuf == x.inbuf && y.pending == x.pending + Between(p, a, b) && OneSided(p, a, b, client)
  }

  ghost predicate Takes<S>(p: Params, x: Side<S>, y: Side<S>, a: nat, b: nat)
    requires b <= Length(p)
  {
    && b == a + 1 && x.inbuf.Some? && y.inbuf == None
    && Between(p, a, b) == [Handshake(x.inbuf.value)] && y.pending == x.pending
  }

  lemma StepOn(p: Params, i: nat)
    requires i < Length(p)
    ensures Between(p, i, i + 1) == (if UsedAt(p, i) then [ItemAt(p, i)] else [])
    ensures Hashed(p, i + 1)
         == if UsedAt(p, i) && ItemAt(p, i).Handshake? then Hashed(p, i) + [ItemAt(p, i).msg] else Hashed(p, i)
    ensures OwnItems(p, i + 1, FromClient(Place(p, i)))
         == OwnItems(p, i, FromClient(Place(p, i))) + (if UsedAt(p, i) then [ItemAt(p, i)] else [])
    ensures OwnItems(p, i + 1, !FromClient(Place(p, i))) == OwnItems(p, i, !FromClient(Place(p, i)))
  {
    hide Place, UsedAt, ItemAt;
    BetweenOne(p, i);
  }

  /** Passing an empty place. */
  lemma Skip<S>(p: Params, x: Side<S>, i: nat, client: bool)
    requires i < Length(p) && !UsedAt(p, i) && Along(p, x, i, client)
    ensures Along(p, x, i + 1, client) && Sends(p, x, x, i, i + 1, client)
  {
    hide Place, UsedAt;
    StepOn(p, i);
  }

  lemma Stay<S>(p: Params, x: Side<S>, i: nat, client: bool)
    requires i <= Length(p)
    ensures Sends(p, x, x, i, i, client)
  {
  }

  /** Queueing the message of a place of one's own, or passing it when it is empty. */
  lemma AddOn<S>(p: Params, x: Side<S>, i: nat, client: bool)
    requires i < Length(p) && FromClient(Place(p, i)) == client && Place(p, i) != CCcs && Place(p, i) != SCcs
    requires Along(p, x, i, client)
    ensures var y := Add(x, UsedAt(p, i), client, TypeOf(Place(p, i)));
      Along(p, y, i + 1, client) && Sends(p, x, y, i, i + 1, client)
  {
    hide Place, FromClient, TypeOf, UsedAt;
    StepOn(p, i);
  }

  lemma AddCcsOn<S>(p: Params, x: Side<S>, i: nat, client: bool)
    requires i < Length(p) && Place(p, i) == (if client then CCcs else SCcs) && Along(p, x, i, client)
    ensures Along(p, AddCcs(x, client), i + 1, client) && Sends(p, x, AddCcs(x, client), i, i + 1, client)
  {
    hide Place;
    StepOn(p, i);
  }

  /** Taking the message of a place of the other side. */
  lemma TakeOn<S>(p: Params, x: Side<S>, i: nat, client: bool)
    requires i < Length(p) && UsedAt(p, i) && FromClient(Place(p, i)) == !client && Along(p, x, i, client)
    requires x.inbuf.Some? && ItemAt(p, i) == Handshake(x.inbuf.value)
    ensures Along(p, Take(x), i + 1, client) && Takes(p, x, Take(x), i, i + 1) && OneSided(p, i, i + 1, !client)
  {
    hide Place, FromClient, UsedAt, ItemAt;
    StepOn(p, i);
  }

  lemma SendsThen<S>(p: Params, x: Side<S>, y: Side<S>, z: Side<S>, a: nat, b: nat, c: nat, client: bool)
    requires a <= b <= c <= Length(p) && Sends(p, x, y, a, b, client) && Sends(p, y, z, b, c, client)
    ensures Sends(p, x, z, a, c, client)
  {
    hide Place, UsedAt, FromClient, Between;
    BetweenSplit(p, a, b, c);
  }

  /** What comes next from the other side: the first used place. */
  lemma Front(p: Params, i: nat, hi: nat)
    requires i < hi <= Length(p)
    ensures Between(p, i, hi) == (if UsedAt(p, i) then [ItemAt(p, i)] else []) + Between(p, i + 1, hi)
  {
    hide UsedAt, ItemAt;
  }

  /** The message in the buffer, if any, is the next of the script. */
  ghost predicate Buffered<S>(p: Params, x: Side<S>, at: nat, peer: nat)
    requires peer <= Length(p)
  {
    x.inbuf.Some? ==> Between(p, at, peer) != [] && Between(p, at, peer)[0] == Handshake(x.inbuf.value)
  }

  /** The message in the buffer belongs to the next place, or that place is empty and it comes later. */
  lemma FrontIsBuffered<S>(p: Params, x: Side<S>, i: nat, peer: nat)
    requires peer <= Length(p) && Buffered(p, x, i, peer) && x.inbuf.Some?
    ensures i < peer
    ensures UsedAt(p, i) ==> ItemAt(p, i) == Handshake(x.inbuf.value)
    ensures !UsedAt(p, i) ==> Buffered(p, x, i + 1, peer)
  {
    hide UsedAt, ItemAt;
    if i < peer { Front(p, i, peer); }
  }

  /** Where a ChangeCipherSpec is next, no message can be in the buffer. */
  lemma NothingBeforeCcs<S>(p: Params, x: Side<S>, i: nat, peer: nat)
    requires peer <= Length(p) && Buffered(p, x, i, peer) && i < Length(p) && Place(p, i) in {CCcs, SCcs}
    ensures x.inbuf == None
  {
    if x.inbuf.Some? { FrontIsBuffered(p, x, i, peer); }
  }

  /** Waiting for the message of a place of the other side, or taking it. */
  lemma ReadOn<S>(p: Params, x: Side<S>, i: nat, client: bool, peer: nat)
    requires peer <= Length(p) && i < Length(p) && UsedAt(p, i) && FromClient(Place(p, i)) == !client
    requires Place(p, i) != CCcs && Place(p, i) != SCcs && Along(p, x, i, client) && Buffered(p, x, i, peer)
    ensures x.inbuf.None? ==> Sends(p, x, x, i, i, client)
    ensures x.inbuf.Some? ==>
      && x.inbuf.value.typ == TypeOf(Place(p, i))
      && (x.inbuf.value.typ == Finished ==> x.inbuf.value.hashed == x.transcript)
      && Along(p, Take(x), i + 1, client) && Takes(p, x, Take(x), i, i + 1) && OneSided(p, i, i + 1, !client)
  {
    hide Hashed, Between, OwnItems, UsedAt, TypeOf;
    Stay(p, x, i, client);
    if x.inbuf.Some? {
      FrontIsBuffered(p, x, i, peer);
      TakeOn(p, x, i, client);
    }
  }

  // ----- what the two sides have in flight -----

  function InBuffer<S>(x: Side<S>): seq<Item> {
    if x.inbuf.Some? then [Handshake(x.inbuf.value)] else []
  }

  lemma NotUsed(p: Params, lo: nat, hi: nat, client: bool)
    requires lo < hi <= Length(p) && OneSided(p, lo, hi, client) && OneSided(p, lo, hi, !client)
    ensures !UsedAt(p, lo) && OneSided(p, lo + 1, hi, client) && OneSided(p, lo + 1, hi, !client)
  {
    hide Place, Used, FromClient;
  }

  lemma {:induction false} NothingUsed(p: Params, lo: nat, hi: nat, client: bool)
    requires hi <= Length(p) && OneSided(p, lo, hi, client) && OneSided(p, lo, hi, !client)
    ensures Between(p, lo, hi) == []
    decreases hi - lo
  {
    hide Place, UsedAt, FromClient, OneSided;
    if lo < hi {
      NotUsed(p, lo, hi, client);
      NothingUsed(p, lo + 1, hi, client);
    }
  }

  /** While a side at place `a` goes on to place `b`, what is under way in the two directions stays what lies between
      the places of the two sides, and lies in one direction only. */
  ghost predicate InFlight(p: Params, a: nat, peer: nat, client: bool, incoming: seq<Item>, outgoing: seq<Item>)
    requires a <= Length(p) && peer <= Length(p)
  {
    && incoming == Between(p, a, peer) && outgoing == Between(p, peer, a)
    && OneSided(p, a, peer, !client) && OneSided(p, peer, a, client)
  }

  lemma SendingInFlight(p: Params, a: nat, b: nat, peer: nat, client: bool, incoming: seq<Item>, outgoing: seq<Item>)
    requires a <= b <= Length(p) && peer <= Length(p) && OneSided(p, a, b, client)
    requires InFlight(p, a, peer, client, incoming, outgoing)
    ensures InFlight(p, b, peer, client, incoming, outgoing + Between(p, a, b))
  {
    hide Place, UsedAt, FromClient, Between;
    BetweenNone(p);
    if peer <= a {
      BetweenSplit(p, peer, a, b);
    } else if b <= peer {
      NothingUsed(p, a, b, client);
      BetweenSplit(p, a, b, peer);
    } else {
      NothingUsed(p, a, peer, client);
      BetweenSplit(p, a, peer, b);
    }
  }

  lemma BetweenNone(p: Params)
    ensures forall lo: nat, hi: nat :: hi <= lo && hi <= Length(p) ==> Between(p, lo, hi) == []
  {
  }

  lemma TakingInFlight(p: Params, a: nat, peer: nat, client: bool, first: Item, rest: seq<Item>, outgoing: seq<Item>)
    requires a + 1 <= Length(p) && peer <= Length(p) && Between(p, a, a + 1) == [first]
    requires InFlight(p, a, peer, client, [first] + rest, outgoing)
    ensures InFlight(p, a + 1, peer, client, rest, outgoing)
  {
    hide Place, UsedAt, FromClient, ItemAt, Between;
    BetweenNone(p);
    assert a < peer;
    BetweenSplit(p, a, a + 1, peer);
    assert ([first] + rest)[1..] == rest && ([first] + Between(p, a + 1, peer))[1..] == Between(p, a + 1, peer);
  }

  // ----- the first used place -----

  /** Place `n` is the first used one from `i` on. */
  ghost predicate NextIs(p: Params, i: nat, n: nat) {
    i <= n < Length(p) && UsedAt(p, n) && forall j :: i <= j < n ==> !UsedAt(p, j)
  }

  lemma {:induction false} HeadIsNext(p: Params, i: nat, n: nat, hi: nat)
    requires NextIs(p, i, n) && hi <= Length(p)
    ensures Between(p, i, hi) == if hi <= n then [] else [ItemAt(p, n)] + Between(p, n + 1, hi)
    decreases n - i
  {
    hide Place, ItemAt, Used;
    if i < n { HeadIsNext(p, i + 1, n, hi); }
  }

  // ----- nothing is queued twice -----

  function Index(p: Params, k: Kind): nat {
    match k
    case CHello => 0 case SHello => 1 case SCert => 2 case SStatus => 3 case SKeyEx => 4 case SRequest => 5
    case SHelloDone => 6 case CCert => 7 case CKeyEx => 8 case CVerify => 9
    case CCcs => if p.resume then 5 else 10
    case CNextProto => if p.resume then 6 else 11
    case CChannelId => if p.resume then 7 else 12
    case CFinished => if p.resume then 8 else 13
    case STicket => if p.resume then 2 else 14
    case SCcs => if p.resume then 3 else 15
    case SFinished => if p.resume then 4 else 16
  }

  lemma PlacesDiffer(p: Params, i: nat)
    requires i < Length(p)
    ensures Index(p, Place(p, i)) == i
  {
  }

  lemma KindsDiffer(p: Params, i: nat, j: nat)
    requires i < Length(p) && j < Length(p) && ItemAt(p, i) == ItemAt(p, j)
    ensures i == j
  {
    hide Place, Index, Hashed;
    assert Place(p, i) == Place(p, j);
    PlacesDiffer(p, i);
    PlacesDiffer(p, j);
  }

  lemma {:induction false} OwnItemIsAt(p: Params, at: nat, client: bool, item: Item)
    requires at <= Length(p) && item in OwnItems(p, at, client)
    ensures exists i: nat :: i < at && item == ItemAt(p, i)
  {
    hide ItemAt, Place, UsedAt;
    if at > 0 {
      if item in OwnItems(p, at - 1, client) {
        OwnItemIsAt(p, at - 1, client, item);
      } else {
        assert item == ItemAt(p, at - 1);
      }
    }
  }

  ghost predicate NoRepeats(s: seq<Item>) {
    forall i, j :: 0 <= i < j < |s| ==> s[i] != s[j]
  }

  lemma {:induction false} NothingTwice(p: Params, at: nat, client: bool)
    requires at <= Length(p)
    ensures NoRepeats(OwnItems(p, at, client))
  {
    hide ItemAt, Place, UsedAt;
    if at > 0 {
      NothingTwice(p, at - 1, client);
      var own, last := OwnItems(p, at - 1, client), ItemAt(p, at - 1);
      if last in own {
        OwnItemIsAt(p, at - 1, client, last);
        var i: nat :| i < at - 1 && last == ItemAt(p, i);
        KindsDiffer(p, i, at - 1);
        assert false;
      }
    }
  }

  /** One transcript is always the beginning of the other. */
  lemma {:induction false} HashedPrefix(p: Params, a: nat, b: nat)
    requires a <= b <= Length(p)
    ensures Hashed(p, a) <= Hashed(p, b)
    decreases b
  {
    hide ItemAt, UsedAt;
    if a < b { HashedPrefix(p, a, b - 1); }
  }
}
