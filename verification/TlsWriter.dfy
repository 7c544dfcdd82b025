/** Writing on a TLS connection: handshake flights and application data share one ordered stream of sealed records,
    through writes that are short or blocked. */
module TlsWriter {
  import opened Bits
  import opened SslBuffer

  /** `SSL3_RT_MAX_PLAIN_LENGTH`. */
  const MAX_PLAIN: nat := 16384

  datatype RecordType = HandshakeRecord | ChangeCipherSpecRecord | AlertRecord | AppRecord

  /** What can be relied on in a call: that sealing works, and that the transport takes and flushes what it is given. */
  datatype Reliable = Reliable(seals: bool, takes: bool)

  /** A sealed record: what is inside and the bytes that carry it. */
  datatype Sealed = Sealed(typ: RecordType, plain: seq<Byte>, bytes: seq<Byte>)

  /** The bytes of records, in the order they were sealed. */
  function Stream(records: seq<Sealed>): seq<Byte> {
    if records == [] then [] else Stream(records[..|records| - 1]) + records[|records| - 1].bytes
  }

  /** What the records of one type carry. */
  function Data(records: seq<Sealed>, typ: RecordType): seq<Byte> {
    if records == [] then []
    else
      var last := records[|records| - 1];
      Data(records[..|records| - 1], typ) + (if last.typ == typ then last.plain else [])
  }

  lemma {:induction false} StreamAppend(a: seq<Sealed>, b: seq<Sealed>)
    ensures Stream(a + b) == Stream(a) + Stream(b)
  {
    if b == [] {
      assert a + b == a;
    } else {
      assert (a + b)[..|a + b| - 1] == a + b[..|b| - 1];
      StreamAppend(a, b[..|b| - 1]);
    }
  }

  lemma {:induction false} DataAppend(a: seq<Sealed>, b: seq<Sealed>, typ: RecordType)
    ensures Data(a + b, typ) == Data(a, typ) + Data(b, typ)
  {
    if b == [] {
      assert a + b == a;
    } else {
      assert (a + b)[..|a + b| - 1] == a + b[..|b| - 1];
      DataAppend(a, b[..|b| - 1], typ);
    }
  }

  /** What sealing `plain` as `typ` comes to: one record, or two when the first byte goes alone. */
  ghost predicate Seals(typ: RecordType, plain: seq<Byte>, bytes: seq<Byte>, records: seq<Sealed>) {
    && records != [] && Stream(records) == bytes
    && (forall t :: Data(records, t) == if t == typ then plain else [])
    && forall r | r in records :: r.typ == typ && |r.plain| <= |plain|
  }

  lemma OneSeals(typ: RecordType, plain: seq<Byte>, bytes: seq<Byte>)
    ensures Seals(typ, plain, bytes, [Sealed(typ, plain, bytes)])
  {
    var r := Sealed(typ, plain, bytes);
    assert [r][..0] == [];
    assert Stream([r]) == Stream([]) + bytes;
    forall t ensures Data([r], t) == if t == typ then plain else [] {
      assert Data([r], t) == Data([], t) + (if t == typ then plain else []);
    }
  }

  lemma TwoSeal(typ: RecordType, plain: seq<Byte>, n: nat, first: seq<Byte>, second: seq<Byte>)
    requires n <= |plain|
    ensures Seals(typ, plain, first + second, [Sealed(typ, plain[..n], first)] + [Sealed(typ, plain[n..], second)])
  {
    OneSeals(typ, plain[..n], first);
    OneSeals(typ, plain[n..], second);
    StreamAppend([Sealed(typ, plain[..n], first)], [Sealed(typ, plain[n..], second)]);
    assert plain[..n] + plain[n..] == plain;
    var a, b := [Sealed(typ, plain[..n], first)], [Sealed(typ, plain[n..], second)];
    forall t ensures Data(a + b, t) == if t == typ then plain else [] {
      DataAppend(a, b, t);
    }
  }

  // ----- the order of the stream -----

  /** The bytes taken by the transport, then those in the write buffer, then those left of the flight, are the records
      in the order they were sealed. */
  ghost predicate InOrder(records: seq<Sealed>, wire: seq<Byte>, buffered: seq<Byte>, left: seq<Byte>) {
    Stream(records) == wire + buffered + left
  }

  ghost predicate Bounded(records: seq<Sealed>, max: nat) {
    forall r | r in records :: |r.plain| <= max
  }

  lemma BufferWritten(records: seq<Sealed>, wire: seq<Byte>, buffered: seq<Byte>, left: seq<Byte>, n: nat)
    requires InOrder(records, wire, buffered, left) && n <= |buffered|
    ensures InOrder(records, wire + buffered[..n], buffered[n..], left)
  {
    assert buffered[..n] + buffered[n..] == buffered;
  }

  lemma FlightWritten(records: seq<Sealed>, wire: seq<Byte>, left: seq<Byte>, n: nat)
    requires InOrder(records, wire, [], left) && n <= |left|
    ensures InOrder(records, wire + left[..n], [], left[n..])
  {
    assert left[..n] + left[n..] == left;
    assert wire + [] + left == wire + left;
  }

  lemma FlightMoved(records: seq<Sealed>, wire: seq<Byte>, left: seq<Byte>)
    requires InOrder(records, wire, [], left)
    ensures InOrder(records, wire, [] + left, [])
  {
    assert wire + [] + left == wire + ([] + left) + [];
  }

  lemma SealedToBuffer(records: seq<Sealed>, wire: seq<Byte>, buffered: seq<Byte>, typ: RecordType, plain: seq<Byte>,
      bytes: seq<Byte>, more: seq<Sealed>, max: nat)
    requires InOrder(records, wire, buffered, []) && Seals(typ, plain, bytes, more)
    requires Bounded(records, max) && |plain| <= max
    ensures InOrder(records + more, wire, buffered + bytes, []) && Bounded(records + more, max)
    ensures forall t :: Data(records + more, t) == Data(records, t) + (if t == typ then plain else [])
  {
    StreamAppend(records, more);
    assert wire + buffered + [] + bytes == wire + (buffered + bytes) + [];
    forall t ensures Data(records + more, t) == Data(records, t) + (if t == typ then plain else []) {
      DataAppend(records, more, t);
    }
  }

  lemma SealedToFlight(records: seq<Sealed>, wire: seq<Byte>, buffered: seq<Byte>, left: seq<Byte>, typ: RecordType,
      plain: seq<Byte>, bytes: seq<Byte>, more: seq<Sealed>, max: nat)
    requires InOrder(records, wire, buffered, left) && Seals(typ, plain, bytes, more)
    requires Bounded(records, max) && |plain| <= max
    ensures InOrder(records + more, wire, buffered, left + bytes) && Bounded(records + more, max)
    ensures forall t :: Data(records + more, t) == Data(records, t) + (if t == typ then plain else [])
  {
    StreamAppend(records, more);
    assert wire + buffered + left + bytes == wire + buffered + (left + bytes);
    forall t ensures Data(records + more, t) == Data(records, t) + (if t == typ then plain else []) {
      DataAppend(records, more, t);
    }
  }

  lemma AllOnTheWire(records: seq<Sealed>, wire: seq<Byte>)
    requires InOrder(records, wire, [], [])
    ensures wire == Stream(records)
  {
    assert wire + [] + [] == wire;
  }

  /** Whatever has been written is a prefix of the records in the order they were sealed. */
  lemma WirePrefix(records: seq<Sealed>, wire: seq<Byte>, buffered: seq<Byte>, left: seq<Byte>)
    requires InOrder(records, wire, buffered, left)
    ensures wire <= Stream(records)
  {
    assert wire + buffered + left == wire + (buffered + left);
  }

  class Connection {
    const buffer: Buffer
    /** `pending_flight`, and how much of it has been written. */
    var flight: Option<seq<Byte>>
    var flightOffset: nat
    var wnum: nat
    var wpendPending: bool
    var wpendTot: nat
    var wpendBuf: nat
    var wpendType: RecordType
    var wpendRet: nat
    var shutdown: bool
    const maxSend: nat
    const overhead: nat
    const acceptMoving: bool
    const partialWrite: bool
    /** What the transport has taken. */
    var wire: seq<Byte>

    /** Every record sealed so far. */
    ghost var sealed: seq<Sealed>

    function FlightLeft(): seq<Byte>
      requires flight.Some? ==> flightOffset <= |flight.value|
      reads this
    {
      if flight.Some? then flight.value[flightOffset..] else []
    }

    ghost predicate Valid()
      reads this, buffer, buffer.buf
    {
      && buffer.Valid() && buffer.Steady() && 1 <= maxSend <= MAX_PLAIN && maxSend + overhead <= MAX_CAP + 1 - SLACK
      && (flight.Some? ==> flightOffset <= |flight.value|) && (flight.None? ==> flightOffset == 0)
      && InOrder(sealed, wire, buffer.Contents(), FlightLeft()) && Bounded(sealed, maxSend)
      && (wpendPending ==> wpendTot == wpendRet && 1 <= wpendRet <= maxSend)
    }

    /** The application bytes of the record that is being written. */
    function Held(): nat
      reads this
    {
      if wpendPending && wpendType == AppRecord then wpendRet else 0
    }

    constructor (maxSend: nat, overhead: nat, acceptMoving: bool, partialWrite: bool)
      requires 1 <= maxSend <= 16384 && maxSend + overhead <= 65529
      ensures Valid() && fresh(buffer) && buffer.buf == null
      ensures wire == [] && sealed == [] && flight == None && wnum == Held() == 0
    {
      this.maxSend, this.overhead, this.acceptMoving, this.partialWrite := maxSend, overhead, acceptMoving, partialWrite;
      buffer := new Buffer();
      flight, flightOffset, wire, shutdown := None, 0, [], false;
      wnum, wpendPending, wpendTot, wpendBuf, wpendType, wpendRet := 0, false, 0, 0, AppRecord, 0;
      sealed := [];
    }

    /** Sealing, as far as the writer can tell: it may fail, and it adds at most the overhead. */
    method Seal(typ: RecordType, plain: seq<Byte>, env: Reliable)
      returns (ok: bool, bytes: seq<Byte>, ghost records: seq<Sealed>)
      ensures env.seals ==> ok
      ensures ok ==> Seals(typ, plain, bytes, records) && records != [] && |bytes| <= |plain| + overhead
    {
      hide Seals;
      ok :| env.seals ==> ok;
      bytes, records := [], [];
      if ok {
        var split: bool := *;
        var first: seq<Byte> :| |first| <= |plain| + overhead;
        if split && |plain| > 1 {
          var second: seq<Byte> :| |first| + |second| <= |plain| + overhead;
          bytes, records := first + second, [Sealed(typ, plain[..1], first)] + [Sealed(typ, plain[1..], second)];
          TwoSeal(typ, plain, 1, first, second);
        } else {
          bytes, records := first, [Sealed(typ, plain, first)];
          OneSeals(typ, plain, first);
        }
      }
    }

    /** The transport takes the first `n` bytes of the write buffer. */
    method WriteBuffered(n: nat)
      requires Valid() && n <= buffer.size
      modifies this`wire, buffer
      ensures Valid() && buffer.buf == old(buffer.buf) && old(wire) <= wire && buffer.size == old(buffer.size) - n
    {
      hide InOrder, Bounded, Consumed, Stream;
      if buffer.buf == null {
        return;
      }
      ghost var queued := buffer.Contents();
      var taken := buffer.buf[buffer.offset..buffer.offset + n];
      assert taken == queued[..n];
      hide Buffer.Valid, Buffer.Contents, Buffer.Steady;
      BufferWritten(sealed, wire, queued, FlightLeft(), n);
      buffer.Consume(n);
      assert buffer.Contents() == queued[n..];
      wire := wire + taken;
    }

    /** `tls_write_buffer_flush`. */
    method FlushBuffer(env: Reliable) returns (ret: int)
      requires Valid()
      modifies this`wire, buffer
      ensures Valid() && (buffer.buf == old(buffer.buf) || buffer.buf == null) && old(wire) <= wire
      ensures ret > 0 ==> buffer.size == 0
      ensures env.takes ==> ret > 0
    {
      hide InOrder, Bounded;
      while buffer.size > 0
        invariant Valid() && buffer.buf == old(buffer.buf) && old(wire) <= wire
        decreases buffer.size
      {
        // The transport takes some of the bytes, or none.
        var n: int :| n <= buffer.size && (env.takes ==> n == buffer.size);
        if n <= 0 {
          return n;
        }
        WriteBuffered(n);
      }
      assert buffer.Contents() == [];
      buffer.Clear();
      ret := 1;
    }

    /** `add_record_to_flight`; no flight is added to while it is being written. */
    method AddRecord(typ: RecordType, plain: seq<Byte>, env: Reliable) returns (ok: bool)
      requires Valid() && flightOffset == 0 && |plain| <= maxSend
      modifies this`flight, this`sealed
      ensures Valid() && old(sealed) <= sealed && (ok <==> |sealed| > |old(sealed)|) && (env.seals ==> ok)
      ensures forall t :: Data(sealed, t) == Data(old(sealed), t) + (if ok && t == typ then plain else [])
    {
      hide Data, Seals, InOrder, Bounded;
      if flight.None? {
        flight := Some([]);
      }
      var bytes: seq<Byte>;
      ghost var records;
      ok, bytes, records := Seal(typ, plain, env);
      if ok {
        SealedToFlight(sealed, wire, buffer.Contents(), FlightLeft(), typ, plain, bytes, records, maxSend);
        flight := Some(flight.value + bytes);
        sealed := sealed + records;
      }
    }

    /** `ssl3_add_message`: at least one record, none longer than `maxSend`. */
    method AddMessage(msg: seq<Byte>, env: Reliable) returns (ok: bool)
      requires Valid() && flightOffset == 0
      modifies this`flight, this`sealed
      ensures Valid() && old(sealed) <= sealed && (ok ==> |sealed| > |old(sealed)|) && (env.seals ==> ok)
      ensures ok ==> Data(sealed, HandshakeRecord) == Data(old(sealed), HandshakeRecord) + msg
      ensures forall t :: t != HandshakeRecord ==> Data(sealed, t) == Data(old(sealed), t)
    {
      hide Data, InOrder, Bounded;
      var rest, first := msg, true;
      ghost var done: seq<Byte> := [];
      while first || rest != []
        invariant Valid() && flightOffset == 0 && done + rest == msg
        invariant old(sealed) <= sealed && (!first ==> |sealed| > |old(sealed)|)
        invariant Data(sealed, HandshakeRecord) == Data(old(sealed), HandshakeRecord) + done
        invariant forall t :: t != HandshakeRecord ==> Data(sealed, t) == Data(old(sealed), t)
        decreases first, |rest|
      {
        var n := if |rest| < maxSend then |rest| else maxSend;
        ok := AddRecord(HandshakeRecord, rest[..n], env);
        if !ok {
          return;
        }
        FromRest(Data(old(sealed), HandshakeRecord), done, rest, n);
        rest, done, first := rest[n..], done + rest[..n], false;
      }
      ok := true;
    }

    /** `ssl3_add_change_cipher_spec`. */
    method AddChangeCipherSpec(env: Reliable) returns (ok: bool)
      requires Valid() && flightOffset == 0
      modifies this`flight, this`sealed
      ensures Valid() && (env.seals ==> ok)
      ensures forall t :: Data(sealed, t) == Data(old(sealed), t) + (if ok && t == ChangeCipherSpecRecord then [1] else [])
    {
      ok := AddRecord(ChangeCipherSpecRecord, [1], env);
    }

    /** The transport takes the next `n` bytes of the flight. */
    method WriteFlightPart(n: nat)
      requires Valid() && flight.Some? && buffer.Contents() == [] && flightOffset + n <= |flight.value|
      modifies this`wire, this`flightOffset
      ensures Valid() && flightOffset == old(flightOffset) + n && old(wire) <= wire
    {
      hide InOrder, Bounded;
      FlightWritten(sealed, wire, FlightLeft(), n);
      assert FlightLeft()[n..] == flight.value[flightOffset + n..];
      wire := wire + FlightLeft()[..n];
      flightOffset := flightOffset + n;
    }

    method WriteFlight(env: Reliable) returns (ret: int)
      requires Valid() && flight.Some? && buffer.Contents() == []
      modifies this`wire, this`flightOffset
      ensures Valid() && old(wire) <= wire
      ensures ret > 0 ==> flightOffset == |flight.value| && wire == Stream(sealed)
      ensures env.takes ==> ret > 0
    {
      hide InOrder, Bounded, Stream;
      while flightOffset < |flight.value|
        invariant Valid() && buffer.Contents() == [] && old(wire) <= wire
        decreases |flight.value| - flightOffset
      {
        var n: int :| n <= |flight.value| - flightOffset && (env.takes ==> n > 0);
        if n <= 0 {
          return n;
        }
        WriteFlightPart(n);
      }
      assert FlightLeft() == [];
      AllOnTheWire(sealed, wire);
      ret := 1;
    }

    /** `ssl3_flush_flight`: what is left of an earlier record goes first. */
    method FlushFlight(env: Reliable) returns (ret: int)
      requires Valid()
      modifies this`wire, this`flight, this`flightOffset, buffer
      ensures Valid() && old(wire) <= wire && (buffer.buf == old(buffer.buf) || buffer.buf == null)
      ensures ret > 0 && old(flight).Some? ==> flight == None && wire == Stream(sealed)
      ensures env.takes && (old(flight).Some? ==> !shutdown && |old(flight).value| <= 0x7FFF_FFFF) ==> ret > 0
    {
      hide InOrder, Bounded, Stream;
      if flight.None? {
        return 1;
      }
      if shutdown || |flight.value| > 0x7FFF_FFFF {
        return -1;
      }
      if buffer.size > 0 {
        ret := FlushBuffer(env);
        if ret <= 0 {
          return;
        }
      }
      assert buffer.Contents() == [];
      ret := WriteFlight(env);
      if ret <= 0 {
        return;
      }
      var flushed: bool :| env.takes ==> flushed;
      if !flushed {
        return -1;
      }
      assert FlightLeft() == [];
      flight, flightOffset := None, 0;
      ret := 1;
    }

    /** `ssl3_write_pending`: finishes the record being written, if the call is the same one again. */
    method WritePending(typ: RecordType, base: nat, len: nat, env: Reliable) returns (ret: int)
      requires Valid() && wpendPending
      modifies this`wire, this`wpendPending, buffer
      ensures Valid() && old(wire) <= wire && (buffer.buf == old(buffer.buf) || buffer.buf == null)
      ensures ret > 0 ==> !wpendPending && ret == wpendRet && wpendTot <= len && wpendType == typ && buffer.size == 0
      ensures ret <= 0 ==> wpendPending
      ensures env.takes && wpendTot <= len && (acceptMoving || wpendBuf == base) && wpendType == typ ==> ret > 0
      ensures wpendTot > len || (!acceptMoving && wpendBuf != base) || wpendType != typ ==>
        ret < 0 && wire == old(wire) && buffer.Contents() == old(buffer.Contents())
    {
      hide InOrder, Bounded;
      if wpendTot > len || (!acceptMoving && wpendBuf != base) || wpendType != typ {
        return -1;
      }
      ret := FlushBuffer(env);
      if ret <= 0 {
        return;
      }
      wpendPending := false;
      ret := wpendRet;
    }

    /** The next record, of at most `n` bytes and behind what is left of the flight, would go into a block of 65530 to
        65535 bytes, the only ones that can be unlucky. */
    predicate Tight(n: int)
      requires flight.Some? ==> flightOffset <= |flight.value|
      reads this
    {
      n > 0 && MAX_CAP + 1 - SLACK < |FlightLeft()| + (if n < maxSend then n else maxSend) + overhead <= MAX_CAP
    }

    /** Puts what is left of the flight into the write buffer, ahead of the record to come. */
    method MoveFlight(len: nat) returns (ok: bool)
      requires Valid() && buffer.size == 0 && 1 <= len <= maxSend && !Tight(len)
      modifies this`flight, this`flightOffset, buffer, buffer.buf
      ensures Valid() && (buffer.buf == old(buffer.buf) || fresh(buffer.buf))
      ensures ok <==> |old(FlightLeft())| + len + overhead <= MAX_CAP
      ensures ok ==> flight == None && buffer.size + len + overhead <= buffer.cap
      ensures !ok ==> FlightLeft() == old(FlightLeft())
    {
      hide InOrder, Bounded;
      assert buffer.Contents() == [];
      var left := FlightLeft();
      FlightMoved(sealed, wire, left);
      ok := buffer.EnsureCap(|left|, |left| + len + overhead);
      if ok {
        FlightIntoBuffer(left);
      }
    }

    method FlightIntoBuffer(left: seq<Byte>)
      requires buffer.Valid() && buffer.Steady() && buffer.Contents() == [] && |left| <= buffer.cap
      requires Bounded(sealed, maxSend) && InOrder(sealed, wire, [] + left, [])
      requires 1 <= maxSend <= MAX_PLAIN && maxSend + overhead <= MAX_CAP + 1 - SLACK
      requires wpendPending ==> wpendTot == wpendRet && 1 <= wpendRet <= maxSend
      modifies this`flight, this`flightOffset, buffer, buffer.buf
      ensures Valid() && flight == None && buffer.size == |left|
      ensures buffer.buf == old(buffer.buf) && buffer.cap == old(buffer.cap)
    {
      hide InOrder, Bounded;
      buffer.Append(left);
      flight, flightOffset := None, 0;
    }

    /** Seals a record behind what is in the write buffer. */
    method SealInto(typ: RecordType, data: seq<Byte>, env: Reliable) returns (ok: bool)
      requires Valid() && flight == None && |data| <= maxSend && buffer.size + |data| + overhead <= buffer.cap
      modifies this`sealed, buffer, buffer.buf
      ensures Valid() && buffer.buf == old(buffer.buf) && (env.seals ==> ok)
      ensures forall t :: Data(sealed, t) == Data(old(sealed), t) + (if ok && t == typ then data else [])
    {
      hide InOrder, Bounded, Seals, Data;
      var bytes: seq<Byte>;
      ghost var records;
      ok, bytes, records := Seal(typ, data, env);
      if ok {
        SealedToBuffer(sealed, wire, buffer.Contents(), typ, data, bytes, records, maxSend);
        buffer.Append(bytes);
        sealed := sealed + records;
      }
    }

    /** The part of `do_ssl3_write` that seals a record and remembers the call. */
    method SealNew(typ: RecordType, base: nat, data: seq<Byte>, env: Reliable) returns (ok: bool)
      requires Valid() && 1 <= |data| <= maxSend && !Tight(|data|) && !wpendPending && buffer.size == 0
      modifies this`flight, this`flightOffset, this`sealed
      modifies this`wpendPending, this`wpendTot, this`wpendBuf, this`wpendType, this`wpendRet, buffer, buffer.buf
      ensures Valid() && (buffer.buf == old(buffer.buf) || fresh(buffer.buf))
      ensures wpendPending == ok && (ok ==> wpendRet == |data| && wpendType == typ && wpendBuf == base && flight == None)
      ensures env.seals && |old(FlightLeft())| + |data| + overhead <= MAX_CAP ==> ok
      ensures forall t :: Data(sealed, t) == Data(old(sealed), t) + (if ok && t == typ then data else [])
      ensures FlightLeft() == [] || FlightLeft() == old(FlightLeft())
    {
      hide InOrder, Bounded, Data;
      ok := MoveFlight(|data|);
      if ok {
        ok := SealInto(typ, data, env);
      }
      if ok {
        Remember(typ, base, |data|);
      }
    }

    /** A record has been sealed: the arguments of the call are kept until it is written. */
    method Remember(typ: RecordType, base: nat, len: nat)
      requires Valid() && 1 <= len <= maxSend
      modifies this`wpendPending, this`wpendTot, this`wpendBuf, this`wpendType, this`wpendRet
      ensures Valid() && wpendPending && wpendTot == wpendRet == len && wpendBuf == base && wpendType == typ
    {
      hide InOrder, Bounded;
      wpendTot, wpendBuf, wpendType, wpendRet, wpendPending := len, base, typ, len, true;
    }

    /** With a cipher that seals and a transport that takes everything a record can be written: the one that is being written
        by a right retry, or a new one that fits the buffer behind the flight. */
    predicate Writable(typ: RecordType, base: nat, len: nat)
      requires flight.Some? ==> flightOffset <= |flight.value|
      reads this, buffer
    {
      len > 0 && if wpendPending then wpendTot <= len && (acceptMoving || wpendBuf == base) && wpendType == typ
                 else buffer.size == 0 && |FlightLeft()| + len + overhead <= MAX_CAP
    }

    /** And so can all of `n` application bytes: no record of them is too long for the buffer behind the flight. */
    predicate AllWritable(base: nat, n: int)
      requires flight.Some? ==> flightOffset <= |flight.value|
      reads this, buffer
    {
      n > 0 && Writable(AppRecord, base, Size(n)) && |FlightLeft()| + maxSend + overhead <= MAX_CAP
    }

    /** `do_ssl3_write`: finishes the record being written, or seals a new one behind what is left of the flight. The
        bytes of a record are sealed by the first of its calls alone. */
    method DoWrite(typ: RecordType, base: nat, data: seq<Byte>, env: Reliable) returns (ret: int)
      requires Valid() && |data| <= maxSend && (wpendPending || !Tight(|data|))
      modifies this`wire, this`flight, this`flightOffset, this`sealed
      modifies this`wpendPending, this`wpendTot, this`wpendBuf, this`wpendType, this`wpendRet, buffer, buffer.buf
      ensures Valid() && old(wire) <= wire
      ensures buffer.buf == null || buffer.buf == old(buffer.buf) || fresh(buffer.buf)
      ensures var sent := !old(wpendPending) && (ret > 0 || wpendPending);
        forall t :: Data(sealed, t) == Data(old(sealed), t) + (if sent && t == typ then data else [])
      ensures ret > 0 ==> !wpendPending && ret <= |data| && buffer.size == 0
      ensures ret > 0 ==> ret == if old(wpendPending) then old(wpendRet) else |data|
      ensures ret > 0 && old(wpendPending) ==> old(wpendType) == typ
      ensures ret <= 0 && old(wpendPending) ==> wpendPending && wpendType == old(wpendType) && wpendRet == old(wpendRet)
      ensures ret <= 0 && !old(wpendPending) && wpendPending ==> wpendType == typ && wpendRet == |data|
      ensures FlightLeft() == [] || (FlightLeft() == old(FlightLeft()) && (ret > 0 ==> old(wpendPending)))
      ensures env.seals && env.takes && old(Writable(typ, base, |data|)) ==> ret > 0
    {
      hide InOrder, Bounded, Data;
      if wpendPending {
        ret := WritePending(typ, base, |data|, env);
        return;
      }
      if |data| > MAX_PLAIN || buffer.size > 0 {
        return -1;
      }
      if |data| == 0 {
        return 0;
      }
      var ok := SealNew(typ, base, data, env);
      if !ok {
        return -1;
      }
      ret := WritePending(typ, base, |data|, env);
    }

    /** How many of `n` bytes go into a record. */
    function Size(n: nat): nat {
      if n > maxSend then maxSend else n
    }

    /** One turn of the loop of `ssl3_write_app_data`: the next record of the caller's bytes, `tot` of which are done. */
    method WriteNext(base: nat, data: seq<Byte>, tot: nat, env: Reliable) returns (ret: int)
      requires Valid() && tot <= |data| && !Tight(|data| - tot - Held())
      modifies this`wire, this`flight, this`flightOffset, this`sealed
      modifies this`wpendPending, this`wpendTot, this`wpendBuf, this`wpendType, this`wpendRet, buffer, buffer.buf
      ensures Valid() && old(wire) <= wire
      ensures buffer.buf == null || buffer.buf == old(buffer.buf) || fresh(buffer.buf)
      ensures var from, to := tot + old(Held()), tot + if ret > 0 then ret as nat else Held();
        && Carried(Data(old(sealed), AppRecord), Data(sealed, AppRecord), data, from, to)
        && (FlightLeft() == [] || (FlightLeft() == old(FlightLeft()) && (ret > 0 ==> to == from)))
      ensures ret > 0 ==> !wpendPending && tot + ret <= |data| && buffer.size == 0
      ensures env.seals && env.takes && old(Writable(AppRecord, base + tot, Size(|data| - tot))) ==> ret > 0
      ensures old(AllWritable(base + tot, |data| - tot)) && 0 < ret < |data| - tot ==>
        AllWritable(base + tot + ret, |data| - tot - ret)
    {
      hide InOrder, Bounded, Data;
      var n := |data| - tot;
      var nw := Size(n);
      ret := DoWrite(AppRecord, base + tot, data[tot..tot + nw], env);
      NothingCarried(Data(old(sealed), AppRecord), data, tot + old(Held()));
    }

    /** The loop of `ssl3_write_app_data`, with the first `start` bytes done: `tot` is how many are when it ends. */
    method WriteFrom(base: nat, data: seq<Byte>, start: nat, env: Reliable) returns (ret: int, tot: nat)
      requires Valid() && start <= |data| && !Tight(|data| - start - Held())
      modifies this`wire, this`flight, this`flightOffset, this`sealed
      modifies this`wpendPending, this`wpendTot, this`wpendBuf, this`wpendType, this`wpendRet, buffer, buffer.buf
      ensures Valid() && old(wire) <= wire
      ensures buffer.buf == null || buffer.buf == old(buffer.buf) || fresh(buffer.buf)
      ensures Carried(Data(old(sealed), AppRecord), Data(sealed, AppRecord), data, start + old(Held()), tot + Held())
      ensures ret > 0 ==> ret == tot <= |data| && !wpendPending && buffer.size == 0 && (partialWrite || ret == |data|)
      ensures env.seals && env.takes && old(AllWritable(base + start, |data| - start)) ==> ret > 0
    {
      hide InOrder, Bounded, Data, Carried, Writable, Size, Buffer.Valid, Buffer.Steady, Buffer.Contents;
      ghost var before, from := Data(sealed, AppRecord), start + Held();
      NothingCarried(before, data, from);
      tot := start;
      while true
        invariant Valid() && old(wire) <= wire && tot <= |data|
        invariant Carried(before, Data(sealed, AppRecord), data, from, tot + Held())
        invariant FlightLeft() == [] || (FlightLeft() == old(FlightLeft()) && from == tot + Held())
        invariant tot == start || tot < |data|
        invariant old(AllWritable(base + start, |data| - start)) ==> AllWritable(base + tot, |data| - tot)
        invariant buffer.buf == null || buffer.buf == old(buffer.buf) || fresh(buffer.buf)
        decreases |data| - tot
      {
        ghost var sofar, at := Data(sealed, AppRecord), tot + Held();
        ret := WriteNext(base, data, tot, env);
        CarriedOn(before, sofar, Data(sealed, AppRecord), data, from, at, tot + if ret > 0 then ret as nat else Held());
        if ret <= 0 {
          return;
        }
        tot := tot + ret;
        if tot == |data| || partialWrite {
          return tot, tot;
        }
      }
    }

    /** `ssl3_write_app_data`. `wnum` bytes of the caller's, and those of the record that is being written, were sealed by
        the blocked calls before. Whatever the caller passes now, the call seals its bytes from there on and no others, in
        order; if it reports `ret`, then up to there, and otherwise up to where the next call will take up again. A caller
        with fewer bytes than `wnum` has none sealed, and the count is lost: the next call starts again. */
    method WriteAppData(base: nat, data: seq<Byte>, env: Reliable) returns (ret: int)
      requires Valid() && (shutdown || |data| < wnum || !Tight(|data| - wnum - Held()))
      modifies this`wire, this`flight, this`flightOffset, this`sealed, this`wnum
      modifies this`wpendPending, this`wpendTot, this`wpendBuf, this`wpendType, this`wpendRet, buffer, buffer.buf
      ensures Valid() && old(wire) <= wire
      ensures buffer.buf == null || buffer.buf == old(buffer.buf) || fresh(buffer.buf)
      ensures ret > 0 ==> wnum == Held() == 0 && ret <= |data| && buffer.size == 0
      ensures ret > 0 && !partialWrite ==> ret == |data|
      ensures env.seals && env.takes && !shutdown && old(AllWritable(base + wnum, |data| - wnum)) ==> ret > 0
      ensures env.seals && env.takes && !shutdown && old(wnum) < |data| ==>
        old(!wpendPending && buffer.size == 0 && FlightLeft() == []) ==> ret > 0
      ensures shutdown || old(wnum) <= |data| ==>
        Carried(Data(old(sealed), AppRecord), Data(sealed, AppRecord), data,
                old(wnum) + old(Held()), if ret > 0 then ret as nat else wnum + Held())
      ensures !shutdown && |data| < old(wnum) ==>
        ret < 0 && wnum == 0 && Held() == old(Held()) && sealed == old(sealed) && FlightLeft() == old(FlightLeft())
    {
      hide InOrder, Bounded, Data, Carried;
      NothingCarried(Data(sealed, AppRecord), data, wnum + Held());
      if shutdown {
        return -1;
      }
      var tot: nat := wnum;
      wnum := 0;
      if |data| < tot {
        return -1;
      }
      ret, tot := WriteFrom(base, data, tot, env);
      if ret <= 0 {
        wnum := tot;
      }
    }
  }

  lemma FromRest(before: seq<Byte>, done: seq<Byte>, rest: seq<Byte>, n: nat)
    requires n <= |rest|
    ensures before + done + rest[..n] == before + (done + rest[..n]) && done + rest[..n] + rest[n..] == done + rest
  {
  }

  /** What the records carry has grown from `before` to `after` by the caller's bytes from `i` to `j`; a caller with fewer
      than `i` bytes has none of them carried. */
  ghost predicate Carried(before: seq<Byte>, after: seq<Byte>, data: seq<Byte>, i: nat, j: nat) {
    && i <= j && (i == j || j <= |data|)
    && after == before + (if i < j then data[i..j] else [])
  }

  lemma NothingCarried(before: seq<Byte>, data: seq<Byte>, i: nat)
    ensures Carried(before, before, data, i, i)
  {
  }

  lemma CarriedOn(before: seq<Byte>, middle: seq<Byte>, after: seq<Byte>, data: seq<Byte>, i: nat, j: nat, k: nat)
    requires Carried(before, middle, data, i, j) && Carried(middle, after, data, j, k)
    ensures Carried(before, after, data, i, k)
  {
    if i < j < k { assert data[i..j] + data[j..k] == data[i..k]; }
  }

  // ----- whole runs -----

  /** What an application and its handshake may do with a connection. A call to write passes the front of what is queued,
      at most `n` bytes of it. */
  datatype Op = Queue(data: seq<Byte>) | Send(base: nat, n: nat) | Message(msg: seq<Byte>) | ChangeCipher | Flush

  /** All the application ever queues. */
  function Queued(ops: seq<Op>): seq<Byte> {
    if ops == [] then []
    else Queued(ops[..|ops| - 1]) + (if ops[|ops| - 1].Queue? then ops[|ops| - 1].data else [])
  }

  /** The front of `todo` that a call passes. */
  function Front(todo: seq<Byte>, n: nat): seq<Byte> {
    if n < |todo| then todo[..n] else todo
  }

  /** The operation is a call to write that retries with fewer bytes than are done, or at which the block is tight. */
  ghost predicate Unlucky(c: Connection, op: Op, todo: seq<Byte>)
    requires c.Valid()
    reads c, c.buffer, c.buffer.buf
  {
    op.Send? && !c.shutdown && (|Front(todo, op.n)| < c.wnum || c.Tight(|Front(todo, op.n)| - c.wnum - c.Held()))
  }

  /** The records carry what has been reported, and then the bytes of `todo` that the blocked calls have sealed. */
  ghost predicate Kept(c: Connection, reported: seq<Byte>, todo: seq<Byte>)
    reads c
  {
    Carried(reported, Data(c.sealed, AppRecord), todo, 0, c.wnum + c.Held())
  }

  lemma KeptOn(reported: seq<Byte>, before: seq<Byte>, after: seq<Byte>, todo: seq<Byte>, n: nat, i: nat, j: nat)
    requires Carried(reported, before, todo, 0, i) && Carried(before, after, Front(todo, n), i, j)
    ensures Carried(reported, after, todo, 0, j)
  {
    assert i < j ==> Front(todo, n)[i..j] == todo[i..j];
    CarriedOn(reported, before, after, todo, 0, i, j);
  }

  lemma KeptReported(reported: seq<Byte>, after: seq<Byte>, todo: seq<Byte>, n: nat)
    requires Carried(reported, after, todo, 0, n) && n <= |todo|
    ensures Carried(reported + todo[..n], after, todo[n..], 0, 0)
    ensures reported + todo[..n] + todo[n..] == reported + todo
  {
    assert todo[0..n] == todo[..n];
  }

  lemma KeptQueued(reported: seq<Byte>, after: seq<Byte>, todo: seq<Byte>, data: seq<Byte>, n: nat)
    requires Carried(reported, after, todo, 0, n)
    ensures Carried(reported, after, todo + data, 0, n)
  {
    assert n <= |todo| ==> (todo + data)[0..n] == todo[0..n];
  }

  /** A call to write: the bytes it reports leave the queue. The count is kept exactly if the caller has no fewer bytes
      than are done, or the connection is shut down. */
  method PerformSend(c: Connection, base: nat, n: nat, todo: seq<Byte>, ghost reported: seq<Byte>)
    returns (rest: seq<Byte>, ghost reported': seq<Byte>)
    requires c.Valid() && Kept(c, reported, todo)
    requires c.shutdown || |Front(todo, n)| < c.wnum || !c.Tight(|Front(todo, n)| - c.wnum - c.Held())
    modifies c, c.buffer, c.buffer.buf
    ensures c.Valid() && old(c.wire) <= c.wire
    ensures c.buffer.buf == null || c.buffer.buf == old(c.buffer.buf) || fresh(c.buffer.buf)
    ensures Kept(c, reported', rest) <==> old(c.shutdown) || old(c.wnum) <= |Front(todo, n)|
    ensures reported <= reported' && reported' + rest == reported + todo
  {
    hide Data, InOrder, Bounded, Carried;
    ghost var before, from := Data(c.sealed, AppRecord), c.wnum + c.Held();
    ghost var counts := c.shutdown || c.wnum <= |Front(todo, n)|;
    var ret := c.WriteAppData(base, Front(todo, n), Reliable(false, false));
    ghost var to := if ret > 0 then ret as nat else c.wnum + c.Held();
    rest, reported' := todo, reported;
    if counts {
      KeptOn(reported, before, Data(c.sealed, AppRecord), todo, n, from, to);
    } else {
      NotKept(reported, before, todo, from, to);
    }
    if ret > 0 {
      KeptReported(reported, Data(c.sealed, AppRecord), todo, ret);
      rest, reported' := todo[ret..], reported + todo[..ret];
    }
  }

  lemma NotKept(reported: seq<Byte>, carried: seq<Byte>, todo: seq<Byte>, i: nat, j: nat)
    requires Carried(reported, carried, todo, 0, i) && j < i
    ensures !Carried(reported, carried, todo, 0, j)
  {
  }

  /** One operation; `todo` is what the application has queued and not been told is written. */
  method Perform(c: Connection, op: Op, todo: seq<Byte>, ghost reported: seq<Byte>)
    returns (rest: seq<Byte>, ghost reported': seq<Byte>)
    requires c.Valid() && Kept(c, reported, todo) && !Unlucky(c, op, todo)
    modifies c, c.buffer, c.buffer.buf
    ensures c.Valid() && Kept(c, reported', rest) && old(c.wire) <= c.wire
    ensures c.buffer.buf == null || c.buffer.buf == old(c.buffer.buf) || fresh(c.buffer.buf)
    ensures reported <= reported' && reported' + rest == reported + todo + (if op.Queue? then op.data else [])
  {
    hide Data, Carried, Connection.Valid;
    rest, reported' := todo, reported;
    match op {
      case Queue(data) =>
        rest := todo + data;
        KeptQueued(reported, Data(c.sealed, AppRecord), todo, data, c.wnum + c.Held());
        assert reported + todo + data == reported + (todo + data);
      case Send(base, n) =>
        rest, reported' := PerformSend(c, base, n, todo, reported);
      case Message(msg) =>
        if c.flightOffset == 0 { var _ := c.AddMessage(msg, Reliable(false, false)); }
      case ChangeCipher =>
        if c.flightOffset == 0 { var _ := c.AddChangeCipherSpec(Reliable(false, false)); }
        assert Data(old(c.sealed), AppRecord) + [] == Data(old(c.sealed), AppRecord);
      case Flush =>
        var _ := c.FlushFlight(Reliable(false, false));
    }
    assert reported + todo + [] == reported + todo;
  }

  /** Over every run: the bytes on the wire are a prefix of the records in the order they were sealed, no record is
      longer than allowed, and what the records carry of the application is a prefix of what it has queued, no byte
      lost, repeated or out of order; the front of it has been reported. It holds up to the end of the run, or up to the
      first call to write that retries with fewer bytes than are done or would seal into a tight block. */
  method Session(c: Connection, ops: seq<Op>) returns (todo: seq<Byte>, done: nat, ghost reported: seq<Byte>)
    requires c.Valid() && c.sealed == [] && c.wnum == c.Held() == 0
    modifies c, c.buffer, c.buffer.buf
    ensures c.Valid() && done <= |ops| && (done < |ops| ==> Unlucky(c, ops[done], todo))
    ensures c.wire <= Stream(c.sealed) && Bounded(c.sealed, c.maxSend)
    ensures reported + todo == Queued(ops[..done])
    ensures reported <= Data(c.sealed, AppRecord) <= Queued(ops[..done])
    ensures |Data(c.sealed, AppRecord)| == |reported| + c.wnum + c.Held()
  {
    hide Data, InOrder, Bounded, Stream, Carried, Kept, Queued, Unlucky, Connection.Valid;
    todo, done, reported := [], 0, [];
    NothingSealed(c);
    QueuedNothing(ops);
    while done < |ops|
      invariant done <= |ops| && c.Valid() && Kept(c, reported, todo)
      invariant c.buffer.buf == null || c.buffer.buf == old(c.buffer.buf) || fresh(c.buffer.buf)
      invariant reported + todo == Queued(ops[..done])
    {
      var unlucky := IsUnlucky(c, ops[done], todo);
      if unlucky {
        break;
      }
      QueuedNext(ops, done);
      todo, reported := Perform(c, ops[done], todo, reported);
      done := done + 1;
    }
    Written(c, reported, todo);
  }

  lemma QueuedNothing(ops: seq<Op>)
    ensures Queued(ops[..0]) == []
  {
  }

  lemma QueuedNext(ops: seq<Op>, i: nat)
    requires i < |ops|
    ensures Queued(ops[..i + 1]) == Queued(ops[..i]) + (if ops[i].Queue? then ops[i].data else [])
  {
    assert ops[..i + 1][..i] == ops[..i];
  }

  lemma Written(c: Connection, reported: seq<Byte>, todo: seq<Byte>)
    requires c.Valid() && Kept(c, reported, todo)
    ensures c.wire <= Stream(c.sealed) && Bounded(c.sealed, c.maxSend)
    ensures reported <= Data(c.sealed, AppRecord) <= reported + todo
    ensures |Data(c.sealed, AppRecord)| == |reported| + c.wnum + c.Held()
  {
    hide Data, Stream, InOrder, Bounded, Carried;
    WirePrefix(c.sealed, c.wire, c.buffer.Contents(), c.FlightLeft());
    PrefixOfQueued(reported, Data(c.sealed, AppRecord), todo, c.wnum + c.Held());
  }

  method IsUnlucky(c: Connection, op: Op, todo: seq<Byte>) returns (unlucky: bool)
    requires c.Valid()
    ensures unlucky <==> Unlucky(c, op, todo)
  {
    hide InOrder, Bounded;
    unlucky := op.Send? && !c.shutdown;
    if unlucky {
      var front := Front(todo, op.n);
      unlucky := |front| < c.wnum || c.Tight(|front| - c.wnum - c.Held());
    }
  }

  lemma NothingSealed(c: Connection)
    requires c.sealed == [] && c.wnum == c.Held() == 0
    ensures Kept(c, [], [])
  {
  }

  lemma PrefixOfQueued(reported: seq<Byte>, carried: seq<Byte>, todo: seq<Byte>, n: nat)
    requires Carried(reported, carried, todo, 0, n)
    ensures reported <= carried <= reported + todo && |carried| == |reported| + n
  {
  }

  // ----- a retry that is too short -----

  /** After a call with fewer bytes than are done, a right one starts again: when it reports, the records carry again
      the bytes from the held ones on that they carried before. */
  method ShortRetry(c: Connection, base: nat, data: seq<Byte>, n: nat, ghost reported: seq<Byte>) returns (ret: int)
    requires c.Valid() && Kept(c, reported, data)
    requires !c.shutdown && n < c.wnum <= |data| && !c.Tight(|data| - c.Held())
    modifies c, c.buffer, c.buffer.buf
    ensures c.Valid() && (ret > 0 ==> old(c.Held()) <= ret <= |data|)
    ensures ret > 0 ==> old(c.wnum) + old(c.Held()) <= |data|
    ensures ret > 0 ==>
      Data(c.sealed, AppRecord) == reported + data[..old(c.wnum) + old(c.Held())] + data[old(c.Held())..ret]
  {
    hide Data, InOrder, Bounded;
    ret := c.WriteAppData(base, data[..n], Reliable(false, false));
    ret := c.WriteAppData(base, data, Reliable(false, false));
    assert data[0..old(c.wnum) + old(c.Held())] == data[..old(c.wnum) + old(c.Held())];
  }
}
