/** Sending a DTLS flight in packets of at most the MTU, with restarts. */
module FlightSender {
  import opened Bits
  import opened Fragments
  import opened Flight
  import opened Receiver

  const RECORD_HEADER: nat := 13

  /** What sealing may add to a record: at most `maxOverhead` bytes, `nonceLen` of them in front. */
  datatype Aead = Aead(maxOverhead: nat, nonceLen: nat)

  datatype SealResult = SealError | NoProgress | Partial | Success

  /** How a flight comes out: all of it written (and flushed or not), a packet not taken by the transport, a
      packet that could not be filled at all, or a record that could not be sealed. */
  datatype SendResult = Done | FlushBlocked | WriteBlocked | MtuTooSmall | SealFailed

  type Packet = seq<Record>

  /** What can be relied on in a call: that the cipher seals, and that the transport takes and flushes what it is given. */
  datatype Reliable = Reliable(seals: bool, takes: bool)

  function WireLength(p: Packet): nat {
    if p == [] then 0 else p[0].wireLen + WireLength(p[1..])
  }

  function Records(packets: seq<Packet>): seq<Record> {
    if packets == [] then [] else packets[0] + Records(packets[1..])
  }

  lemma {:induction false} WireLengthAppend(p: Packet, r: Record)
    ensures WireLength(p + [r]) == WireLength(p) + r.wireLen
  {
    if p != [] {
      assert (p + [r])[1..] == p[1..] + [r];
      WireLengthAppend(p[1..], r);
    } else {
      assert (p + [r])[1..] == [];
    }
  }

  lemma {:induction false} RecordsAppend(packets: seq<Packet>, p: Packet)
    ensures Records(packets + [p]) == Records(packets) + p
  {
    if packets != [] {
      assert (packets + [p])[1..] == packets[1..] + [p];
      RecordsAppend(packets[1..], p);
    } else {
      assert (packets + [p])[1..] == [];
    }
  }

  lemma {:induction false} AdvancePart(messages: seq<Outgoing>, p: Pos, a: seq<Record>, b: seq<Record>)
    requires PosOK(messages, p) && AdvanceAll(messages, p, a + b).Some?
    ensures AdvanceAll(messages, p, a).Some?
    decreases a
  {
    hide Advance;
    if a != [] {
      assert (a + b)[1..] == a[1..] + b && (a + b)[0] == a[0];
      AdvancePart(messages, Advance(messages, p, a[0]).value, a[1..], b);
    }
  }

  lemma AdvanceNone(messages: seq<Outgoing>, p: Pos)
    requires PosOK(messages, p)
    ensures AdvanceAll(messages, p, Records([])) == Some(p)
  {
  }

  /** What a record needs at least: a header of 13 bytes, what sealing adds, and the byte of a ChangeCipherSpec, or a
      fragment header of 12 bytes and a byte of the message. */
  lemma RoomIs(sender: Sender, maxOut: nat, m: Outgoing, a: Aead)
    requires a.nonceLen <= a.maxOverhead
    ensures sender.HasRoom(maxOut, m, a) <==> maxOut >= 13 + a.maxOverhead + if m.isCcs then 1 else 12 + 1
  {
  }

  /** Each packet of a walk is a walk from some position, which is all the network needs to know of it. */
  lemma {:induction false} PacketIsWalk(messages: seq<Outgoing>, p: Pos, packets: seq<Packet>, i: nat) returns (from: Pos)
    requires PosOK(messages, p) && AdvanceAll(messages, p, Records(packets)).Some? && i < |packets|
    ensures PosOK(messages, from) && AdvanceAll(messages, from, packets[i]).Some?
    decreases i
  {
    AdvancePart(messages, p, packets[0], Records(packets[1..]));
    if i == 0 {
      from := p;
    } else {
      AdvanceThen(messages, p, packets[0], Records(packets[1..]));
      from := PacketIsWalk(messages, AdvanceAll(messages, p, packets[0]).value, packets[1..], i - 1);
    }
  }

  class Sender {
    var messages: seq<Outgoing>
    /** `outgoing_messages_complete`: the flight has been flushed once, the next message starts a new one. */
    var complete: bool
    var written: nat
    var offset: nat
    var writeEpoch: nat
    var aead: Aead
    var lastAead: Aead
    var mtu: nat
    /** The packets the transport has taken. */
    var wire: seq<Packet>

    ghost predicate Valid()
      reads this
    {
      && PosOK(messages, At()) && |messages| <= MAX_FLIGHT
      && aead.nonceLen <= aead.maxOverhead && lastAead.nonceLen <= lastAead.maxOverhead
    }

    function At(): Pos
      reads this
    {
      Pos(written, offset)
    }

    /** `add_outgoing`. */
    method Add(m: Outgoing) returns (ok: bool)
      requires Valid() && MessageOK(m) && m.epoch == writeEpoch
      modifies `messages, `complete, `written, `offset
      ensures Valid() && !complete
      ensures old(complete) ==> ok && messages == [m] && At() == Pos(0, 0)
      ensures !old(complete) ==> At() == old(At()) && (ok <==> old(|messages|) < MAX_FLIGHT)
      ensures !old(complete) ==> messages == if ok then old(messages) + [m] else old(messages)
    {
      if complete {
        messages := [];
        written, offset, complete := 0, 0, false;
      }
      if |messages| >= MAX_FLIGHT {
        return false;
      }
      messages := messages + [m];
      ok := true;
    }

    /** `dtls1_set_write_state`: messages queued before the change are still sealed as they would have been. */
    method NextWriteEpoch(newAead: Aead)
      requires Valid() && writeEpoch < 0xFFFF && newAead.nonceLen <= newAead.maxOverhead
      modifies `writeEpoch, `aead, `lastAead
      ensures Valid() && writeEpoch == old(writeEpoch) + 1
      ensures forall m: Outgoing :: m.epoch == old(writeEpoch) ==> AeadFor(m) == old(aead)
      ensures forall m: Outgoing :: m.epoch == writeEpoch ==> AeadFor(m) == newAead
    {
      writeEpoch, lastAead, aead := writeEpoch + 1, aead, newAead;
    }

    /** The room the next record needs at least. */
    predicate HasRoom(maxOut: nat, m: Outgoing, a: Aead) {
      if m.isCcs then maxOut >= 1 + RECORD_HEADER + a.maxOverhead
      else maxOut >= HEADER_LENGTH + 1 + RECORD_HEADER + a.maxOverhead && maxOut >= RECORD_HEADER + a.nonceLen
    }

    function AeadFor(m: Outgoing): Aead
      reads this
    {
      if writeEpoch >= 1 && m.epoch == writeEpoch - 1 then lastAead else aead
    }

    /** The message is of the epoch being written or the one before. */
    predicate Sealable(m: Outgoing)
      reads this
    {
      m.epoch == writeEpoch || m.epoch + 1 == writeEpoch
    }

    /** Every message of the flight can be sealed, and some of it fits a packet. */
    ghost predicate Sendable()
      reads this
    {
      forall m | m in messages :: Sealable(m) && HasRoom(mtu, m, AeadFor(m))
    }

    /** With 26 bytes and the overhead of the cipher a flight of the current epoch can be sent. */
    lemma EnoughRoom()
      requires Valid() && mtu >= 26 + aead.maxOverhead && forall m | m in messages :: m.epoch == writeEpoch
      ensures Sendable()
    {
    }

    /** `seal_next_message`: one record, as long as the room allows. */
    method SealNextMessage(maxOut: nat, env: Reliable) returns (result: SealResult, r: Record)
      requires Valid() && written < |messages|
      modifies `offset
      ensures Valid()
      ensures result == SealError || result == NoProgress ==> offset == old(offset)
      ensures env.seals && Sealable(messages[written]) ==> result != SealError
      ensures result == NoProgress ==> !HasRoom(maxOut, messages[written], AeadFor(messages[written]))
      ensures result == Partial || result == Success ==>
        && r.wireLen <= maxOut && HasRoom(maxOut, messages[written], AeadFor(messages[written]))
        && Advance(messages, old(At()), r) == Some(if result == Partial then At() else Pos(written + 1, 0))
      ensures result == Success ==> offset == 0
      ensures result == Partial ==> |r.plain| == maxOut - RECORD_HEADER - AeadFor(messages[written]).maxOverhead
    {
      hide Advance, FragmentOf, BodyOf, MessageOK;
      var m := messages[written];
      assert MessageOK(m);
      r := Record(m.isCcs, m.epoch, [], 0);
      if !(writeEpoch >= 1 && m.epoch == writeEpoch - 1) && m.epoch != writeEpoch {
        return SealError, r;
      }
      var a := AeadFor(m);
      if !HasRoom(maxOut, m, a) {
        return NoProgress, r;
      }
      // Whether sealing goes through, and what it adds, is up to the cipher.
      var sealed: bool :| env.seals ==> sealed;
      var added: nat :| added <= a.maxOverhead;
      if !sealed {
        return SealError, r;
      }
      if m.isCcs {
        r := r.(plain := [1], wireLen := RECORD_HEADER + 1 + added);
        AdvanceCcs(messages, At(), r);
        return Success, r;
      }
      var left := |BodyOf(m)| - offset;
      var todo := left;
      if todo > maxOut - HEADER_LENGTH - RECORD_HEADER - a.maxOverhead {
        todo := maxOut - HEADER_LENGTH - RECORD_HEADER - a.maxOverhead;
      }
      // The fragment fits behind the prefix, so assembling it in place cannot fail.
      assert HEADER_LENGTH + todo <= maxOut - (RECORD_HEADER + a.nonceLen);
      r := r.(plain := FragmentOf(m, offset, todo), wireLen := RECORD_HEADER + HEADER_LENGTH + todo + added);
      AdvanceFragment(messages, At(), todo, r);
      if todo == left {
        offset := 0;
        return Success, r;
      }
      offset := offset + todo;
      return Partial, r;
    }

    /** `seal_next_packet`: as many records as fit. Without room for the first one the packet cannot be sent;
        after a record that could not be sealed the position stays where it had come to. */
    method SealNextPacket(maxOut: nat, env: Reliable) returns (error: Option<SendResult>, packet: Packet)
      requires Valid() && written < |messages|
      modifies `written, `offset
      ensures Valid() && AdvanceAll(messages, old(At()), packet) == Some(At()) && WireLength(packet) <= maxOut
      ensures if packet == [] then At() == old(At()) else Ahead(old(At()), At())
      ensures error == None ==> packet != []
      ensures error == Some(MtuTooSmall) ==>
        packet == [] && !HasRoom(maxOut, messages[written], AeadFor(messages[written]))
      ensures error == None || error == Some(MtuTooSmall) || error == Some(SealFailed)
      ensures env.seals && (forall m | m in messages :: Sealable(m)) ==> error != Some(SealFailed)
    {
      hide PosOK, Advance, HasRoom;
      var madeProgress, room: nat := false, maxOut;
      packet := [];
      while written < |messages|
        invariant Valid()
        invariant AdvanceAll(messages, old(At()), packet) == Some(At())
        invariant room + WireLength(packet) == maxOut
        invariant madeProgress <==> packet != []
        invariant madeProgress ==> Ahead(old(At()), At())
        invariant !madeProgress ==> At() == old(At()) && room == maxOut
        decreases |messages| - written
      {
        ghost var before := At();
        var result, r := SealNextMessage(room, env);
        if result == SealError {
          return Some(SealFailed), packet;
        }
        if result == NoProgress {
          break;
        }
        AdvanceMore(messages, old(At()), packet, r, if result == Partial then At() else Pos(written + 1, 0));
        WireLengthAppend(packet, r);
        packet, room, madeProgress := packet + [r], room - r.wireLen, true;
        if result == Partial {
          break;
        }
        written := written + 1;
      }
      if !madeProgress {
        return Some(MtuTooSmall), packet;
      }
      return None, packet;
    }

    /** `send_flight`: the walk from the old position to the new one is what the transport has taken, and then the `lost`
        records: those sealed for a packet in which a later record could not be sealed. They are not sent, and a further
        call goes on behind them. */
    method SendFlight(env: Reliable) returns (result: SendResult, ghost sent: seq<Packet>, ghost lost: Packet)
      requires Valid()
      modifies `written, `offset, `wire
      ensures Valid() && wire == old(wire) + sent
      ensures forall p | p in sent :: p != [] && WireLength(p) <= mtu
      ensures AdvanceAll(messages, old(At()), Records(sent) + lost) == Some(At())
      ensures lost != [] ==> result == SealFailed
      ensures AdvanceAll(messages, old(At()), Records(sent)).Some?
      ensures AdvanceAll(messages, old(At()), Records(sent)) == Some(At()) <==> lost == []
      ensures result == Done || result == FlushBlocked ==> At() == Pos(|messages|, 0)
      ensures result == MtuTooSmall ==> written < |messages| && !HasRoom(mtu, messages[written], AeadFor(messages[written]))
      ensures env.takes ==> result != WriteBlocked && result != FlushBlocked
      ensures env.seals && (forall m | m in messages :: Sealable(m)) ==> result != SealFailed
      ensures env.seals && env.takes && Sendable() ==> result == Done
    {
      hide Advance, HasRoom, AdvanceAll;
      sent, lost := [], [];
      AdvanceNone(messages, At());
      while written < |messages|
        invariant Valid() && wire == old(wire) + sent
        invariant forall p | p in sent :: p != [] && WireLength(p) <= mtu
        invariant AdvanceAll(messages, old(At()), Records(sent)) == Some(At())
        invariant Records(sent) + lost == Records(sent) && lost == []
        decreases |messages| - written, BytesLeft()
      {
        var oldWritten, oldOffset := written, offset;
        var error, packet := SealNextPacket(mtu, env);
        AdvanceThen(messages, old(At()), Records(sent), packet);
        if error.Some? {
          return error.value, sent, packet;
        }
        // Whether the transport takes the packet is up to it.
        var taken: bool :| env.takes ==> taken;
        if !taken {
          written, offset := oldWritten, oldOffset;
          return WriteBlocked, sent, [];
        }
        RecordsAppend(sent, packet);
        wire, sent := wire + [packet], sent + [packet];
      }
      var flushed: bool :| env.takes ==> flushed;
      return if flushed then Done else FlushBlocked, sent, [];
    }

    ghost function BytesLeft(): nat
      requires Valid()
      reads this
    {
      if written < |messages| && !messages[written].isCcs then |BodyOf(messages[written])| - offset else 0
    }

    /** `dtls1_flush_flight`. */
    method Flush(env: Reliable) returns (result: SendResult, ghost sent: seq<Packet>, ghost lost: Packet)
      requires Valid()
      modifies `complete, `written, `offset, `wire
      ensures Valid() && complete && wire == old(wire) + sent
      ensures forall p | p in sent :: p != [] && WireLength(p) <= mtu
      ensures AdvanceAll(messages, old(At()), Records(sent) + lost) == Some(At())
      ensures lost != [] ==> result == SealFailed
      ensures AdvanceAll(messages, old(At()), Records(sent)).Some?
      ensures AdvanceAll(messages, old(At()), Records(sent)) == Some(At()) <==> lost == []
      ensures result == Done || result == FlushBlocked ==> At() == Pos(|messages|, 0)
      ensures env.seals && env.takes && Sendable() ==> result == Done
    {
      complete := true;
      result, sent, lost := SendFlight(env);
    }

    /** `dtls1_retransmit_outgoing_messages`: the flight from its start, cut by the MTU of the day. However it ends, what
        is sent is the walk from the start to where the next call will go on, less the records that were lost. */
    method Retransmit(env: Reliable) returns (result: SendResult, ghost sent: seq<Packet>, ghost lost: Packet)
      requires Valid()
      modifies `written, `offset, `wire
      ensures Valid() && wire == old(wire) + sent
      ensures forall p | p in sent :: p != [] && WireLength(p) <= mtu
      ensures AdvanceAll(messages, Pos(0, 0), Records(sent) + lost) == Some(At())
      ensures lost != [] ==> result == SealFailed
      ensures AdvanceAll(messages, Pos(0, 0), Records(sent)).Some?
      ensures AdvanceAll(messages, Pos(0, 0), Records(sent)) == Some(At()) <==> lost == []
      ensures result == Done || result == FlushBlocked ==> At() == Pos(|messages|, 0)
      ensures env.seals && env.takes && Sendable() ==> result == Done
    {
      written, offset := 0, 0;
      result, sent, lost := SendFlight(env);
    }
  }
}
