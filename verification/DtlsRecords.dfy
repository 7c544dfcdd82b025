/** Which DTLS records are let through, over all epochs. */
module DtlsRecords {
  import opened Bits
  import opened Replay

  /** The number a record header spells out, epoch first. */
  function BigEndian(s: seq<Byte>): (n: nat)
    ensures n < Pow2(8 * |s|)
  {
    if s == [] then 0
    else
      assert Pow2(8 * |s|) == Pow2(8 * (|s| - 1)) * 256 by { Pow2Add(8 * (|s| - 1), 8); Pow2Values(); }
      256 * BigEndian(s[..|s| - 1]) + s[|s| - 1]
  }

  lemma Below64(s: seq<Byte>)
    requires |s| <= 8
    ensures BigEndian(s) < TWO_64
    ensures |s| < 8 ==> 256 * BigEndian(s) < TWO_64
  {
    hide BigEndian, Pow2;
    Pow2Values();
    Pow2Monotone(8 * |s|, 64);
    if |s| < 8 {
      Pow2Add(8 * |s|, 8);
      Pow2Monotone(8 * |s| + 8, 64);
    }
  }

  /** `to_u64_be`: eight bits at a time. */
  method ToU64(s: seq<Byte>) returns (ret: nat)
    requires |s| == 8
    ensures ret == BigEndian(s) && ret < TWO_64
  {
    hide Or, Pow2, Or64, Shl;
    ret := 0;
    var i := 0;
    while i < 8
      invariant 0 <= i <= 8 && ret == BigEndian(s[..i])
    {
      Below64(s[..i]);
      ShiftIn(ret, s[i]);
      assert s[..i + 1][..i] == s[..i];
      ret := Or64(Shl(ret, 8) % TWO_64, s[i]);
      i := i + 1;
    }
    assert s[..8] == s;
    Below64(s);
  }

  lemma ShiftIn(n: nat, b: Byte)
    requires 256 * n < TWO_64
    ensures Shl(n, 8) % TWO_64 == 256 * n < TWO_64 && Or64(256 * n, b) == 256 * n + b
  {
    hide Or, Pow2;
    Pow2Values();
    OrDisjoint(b, n, 8);
    OrCommutes(b, 256 * n);
  }

  lemma {:induction false} OrCommutes(a: nat, b: nat)
    ensures Or(a, b) == Or(b, a)
  {
    if a != 0 && b != 0 { OrCommutes(a / 2, b / 2); }
  }

  /** The number of a record: its epoch and its 48-bit sequence number. */
  function Number(epoch: nat, sequence: nat): nat {
    epoch * 0x1_0000_0000_0000 + sequence
  }

  lemma {:induction false} BigEndianSplit(a: seq<Byte>, b: seq<Byte>)
    ensures BigEndian(a + b) == BigEndian(a) * Pow2(8 * |b|) + BigEndian(b)
  {
    if b == [] {
      assert a + b == a;
    } else {
      var c, last := b[..|b| - 1], b[|b| - 1];
      assert (a + b)[..|a + b| - 1] == a + c;
      BigEndianSplit(a, c);
      Pow2Add(8 * |c|, 8);
      Pow2Values();
      Regroup(BigEndian(a), Pow2(8 * |c|), BigEndian(c), last);
    }
  }

  lemma Regroup(x: nat, p: nat, y: nat, last: nat)
    ensures 256 * (x * p + y) + last == x * (p * 256) + (256 * y + last)
  {
  }

  lemma TwoBytes(s: seq<Byte>)
    requires |s| == 2
    ensures var high: nat := s[0]; BigEndian(s) == high * 256 + s[1]
  {
    assert s[..1][..0] == [];
    assert BigEndian(s[..1]) == s[0];
  }

  /** The 64-bit number of a header is its epoch and its sequence number. */
  lemma SequenceNumber(s: seq<Byte>)
    requires |s| == 8
    ensures BigEndian(s) == Number(BigEndian(s[..2]), BigEndian(s[2..]))
    ensures BigEndian(s[..2]) < 0x1_0000 && BigEndian(s[2..]) < 0x1_0000_0000_0000
    ensures var high: nat := s[0]; BigEndian(s[..2]) == high * 256 + s[1]
  {
    hide BigEndian, Pow2;
    Pow2Values();
    Pow2Add(8, 8);
    Pow2Add(16, 32);
    assert s[..2] + s[2..] == s;
    BigEndianSplit(s[..2], s[2..]);
    TwoBytes(s[..2]);
  }

  datatype Outcome = Success | Discard | RecordOverflow

  /** `SSL3_RT_MAX_PLAIN_LENGTH`. */
  const MAX_PLAIN: nat := 16384

  // ----- the reader on values -----

  /** The epoch a record must have, and the numbers accepted in it. */
  datatype Reader = Reader(epoch: nat, highest: nat, recorded: set<nat>)

  datatype Event = Arrive(epoch: nat, sequence: nat, opens: bool, plainLen: nat) | NewEpoch

  predicate EventOK(e: Event) {
    e.Arrive? ==> e.epoch < 0x1_0000 && e.sequence < 0x1_0000_0000_0000
  }

  predicate Accepts(r: Reader, e: Event) {
    && e.Arrive? && e.epoch == r.epoch && !Refused(r.recorded, r.highest, Number(e.epoch, e.sequence))
    && e.opens && e.plainLen <= MAX_PLAIN
  }

  /** The epoch has 16 bits. */
  function Step(r: Reader, e: Event): Reader {
    match e
    case NewEpoch => Reader((r.epoch + 1) % 0x1_0000, 0, {})
    case Arrive(epoch, sequence, _, _) =>
      if Accepts(r, e) then
        var n := Number(epoch, sequence);
        Reader(r.epoch, if n > r.highest then n else r.highest, r.recorded + {n})
      else r
  }

  /** The reader of a DTLS connection. */
  class RecordReader {
    var epoch: nat
    const bitmap: Bitmap

    ghost predicate Valid()
      reads this, bitmap
    {
      bitmap.Valid() && epoch < 0x1_0000
    }

    ghost function Abs(): Reader
      reads this, bitmap
    {
      Reader(epoch, bitmap.maxSeqNum, bitmap.recorded)
    }

    constructor ()
      ensures Valid() && fresh(bitmap) && Abs() == Reader(0, 0, {})
    {
      epoch := 0;
      bitmap := new Bitmap();
    }

    /** The part of `dtls_open_record` that decides: `opens` is whether the AEAD accepts the record. A record is let
        through exactly if it is of the epoch, its number is neither recorded nor 64 or more below the highest, it opens
        and it is not too long; its number is recorded then, and otherwise nothing changes. */
    method Open(sequence: seq<Byte>, opens: bool, plainLen: nat) returns (outcome: Outcome)
      requires Valid() && |sequence| == 8
      modifies bitmap
      ensures Valid() && epoch == old(epoch)
      ensures Abs() == Step(old(Abs()), Arrive(BigEndian(sequence[..2]), BigEndian(sequence[2..]), opens, plainLen))
      ensures var n, r := BigEndian(sequence), old(Abs());
        && (outcome == Success <==>
              BigEndian(sequence[..2]) == r.epoch && n !in r.recorded && n + 64 > r.highest && opens && plainLen <= 16384)
        && (outcome == RecordOverflow <==>
              BigEndian(sequence[..2]) == r.epoch && n !in r.recorded && n + 64 > r.highest && opens && plainLen > 16384)
        && Abs() == if outcome != Success then r
                    else Reader(r.epoch, if n > r.highest then n else r.highest, r.recorded + {n})
    {
      hide BigEndian;
      SequenceNumber(sequence);
      var high: nat := sequence[0];
      var n := ToU64(sequence);
      if high * 256 + sequence[1] != epoch {
        return Discard;
      }
      var discard := bitmap.ShouldDiscard(n);
      if discard || !opens {
        return Discard;
      }
      if plainLen > MAX_PLAIN {
        return RecordOverflow;
      }
      bitmap.Record(n);
      outcome := Success;
    }

    /** `dtls1_set_read_state`. */
    method NextEpoch()
      requires Valid()
      modifies this`epoch, bitmap
      ensures Valid() && Abs() == Step(old(Abs()), NewEpoch)
    {
      epoch := (epoch + 1) % 0x1_0000;
      bitmap.Reset();
    }
  }

  // ----- whole runs -----

  /** The numbers accepted over a run, in order. */
  function Accepted(r: Reader, events: seq<Event>): seq<nat>
    decreases events
  {
    if events == [] then []
    else
      (if Accepts(r, events[0]) then [Number(events[0].epoch, events[0].sequence)] else [])
      + Accepted(Step(r, events[0]), events[1..])
  }

  function Changes(events: seq<Event>): nat {
    if events == [] then 0 else (if events[0].NewEpoch? then 1 else 0) + Changes(events[1..])
  }

  ghost predicate NoRepeats(s: seq<nat>) {
    forall i, j :: 0 <= i < j < |s| ==> s[i] != s[j]
  }

  ghost predicate EventsOK(events: seq<Event>) {
    forall e | e in events :: EventOK(e)
  }

  ghost predicate InEpoch(r: Reader) {
    forall n | n in r.recorded :: Number(r.epoch, 0) <= n < Number(r.epoch + 1, 0)
  }

  lemma StepInEpoch(r: Reader, e: Event)
    requires EventOK(e) && InEpoch(r) && r.epoch + (if e.NewEpoch? then 1 else 0) < 0x1_0000
    ensures InEpoch(Step(r, e)) && Step(r, e).epoch == r.epoch + (if e.NewEpoch? then 1 else 0)
    ensures e.Arrive? ==> forall n | n in r.recorded :: n in Step(r, e).recorded
    ensures Accepts(r, e) ==> var n := Number(e.epoch, e.sequence);
      n !in r.recorded && n >= Number(r.epoch, 0) && n in Step(r, e).recorded
  {
  }

  /** Before the epoch wraps, a run accepts only numbers that are new, and none twice. */
  lemma {:induction false} AcceptedAreNew(r: Reader, events: seq<Event>)
    requires EventsOK(events) && InEpoch(r) && r.epoch + Changes(events) < 0x1_0000
    ensures NoRepeats(Accepted(r, events))
    ensures forall n | n in Accepted(r, events) :: n >= Number(r.epoch, 0) && n !in r.recorded
    decreases events
  {
    hide Accepts, Step, EventOK;
    if events != [] {
      var e, r', rest := events[0], Step(r, events[0]), events[1..];
      StepInEpoch(r, e);
      AcceptedAreNew(r', rest);
      if e.NewEpoch? { NothingArrives(r); }
    }
  }

  lemma NothingArrives(r: Reader)
    ensures !Accepts(r, NewEpoch)
  {
  }

  const START: Reader := Reader(0, 0, {})

  function Epochs(k: nat): seq<Event> {
    if k == 0 then [] else [NewEpoch] + Epochs(k - 1)
  }

  lemma {:induction false} SkipEpochs(r: Reader, k: nat, tail: seq<Event>)
    requires k > 0 && r.epoch < 0x1_0000
    ensures Accepted(r, Epochs(k) + tail) == Accepted(Reader((r.epoch + k) % 0x1_0000, 0, {}), tail)
    ensures Changes(Epochs(k) + tail) == k + Changes(tail)
    decreases k
  {
    hide Accepted, Changes;
    assert Epochs(k) + tail == [NewEpoch] + (Epochs(k - 1) + tail);
    FirstEvent(r, NewEpoch, Epochs(k - 1) + tail);
    if k == 1 {
      assert Epochs(0) + tail == tail;
    } else {
      SkipEpochs(Step(r, NewEpoch), k - 1, tail);
    }
  }

  lemma FirstEvent(r: Reader, e: Event, rest: seq<Event>)
    ensures Accepted(r, [e] + rest)
         == (if Accepts(r, e) then [Number(e.epoch, e.sequence)] else []) + Accepted(Step(r, e), rest)
    ensures Changes([e] + rest) == (if e.NewEpoch? then 1 else 0) + Changes(rest)
  {
    hide Accepts, Step;
    assert ([e] + rest)[1..] == rest;
  }

  /** After 65536 changes of epoch the same number passes again. */
  lemma WrapRepeats(k: nat) returns (events: seq<Event>)
    requires k >= 0x1_0000
    ensures EventsOK(events) && Changes(events) == k && !NoRepeats(Accepted(START, events))
  {
    hide Accepted, Changes, Epochs;
    var e := Arrive(0, 0, true, 0);
    var more := Epochs(k - 0x1_0000);
    events := [e] + (Epochs(0x1_0000) + ([e] + more));
    EpochsOK(0x1_0000);
    EpochsOK(k - 0x1_0000);
    EpochsChange(k - 0x1_0000);
    FirstEvent(START, e, Epochs(0x1_0000) + ([e] + more));
    SkipEpochs(Step(START, e), 0x1_0000, [e] + more);
    FirstEvent(START, e, more);
    var a := Accepted(START, events);
    assert a == [0] + ([0] + Accepted(Step(START, e), more));
    assert a[0] == a[1];
  }

  lemma {:induction false} EpochsOK(k: nat)
    ensures EventsOK(Epochs(k))
  {
    if k > 0 { EpochsOK(k - 1); }
  }

  lemma {:induction false} EpochsChange(k: nat)
    ensures Changes(Epochs(k)) == k
  {
    if k > 0 { EpochsChange(k - 1); }
  }

  /** No record is let through twice, whatever arrives, exactly as long as there are fewer than 65536 epochs. */
  lemma NoReplay(k: nat)
    ensures (forall events | EventsOK(events) && Changes(events) == k :: NoRepeats(Accepted(START, events)))
      <==> k < 0x1_0000
  {
    if k < 0x1_0000 {
      forall events | EventsOK(events) && Changes(events) == k ensures NoRepeats(Accepted(START, events)) {
        AcceptedAreNew(START, events);
      }
    } else {
      var events := WrapRepeats(k);
    }
  }

  // ----- what is let through -----

  /** The test, spelled out. */
  lemma AcceptsIs(r: Reader, e: Event)
    ensures Accepts(r, e) <==>
      e.Arrive? && e.opens && e.plainLen <= 16384 && e.epoch == r.epoch
      && Number(e.epoch, e.sequence) !in r.recorded && Number(e.epoch, e.sequence) + 64 > r.highest
  {
  }

  /** What does not open changes nothing, and neither does what is too long or of another epoch. */
  lemma ForgeryIsNothing(r: Reader, e: Event)
    requires e.Arrive? && (!e.opens || e.plainLen > 16384 || e.epoch != r.epoch)
    ensures Step(r, e) == r && !Accepts(r, e)
  {
  }

  /** Every number let through over a run is that of a record that opens, is not too long, and is of the epoch that the
      reader is in by then. */
  lemma {:induction false} AcceptedIsGenuine(r: Reader, events: seq<Event>, n: nat) returns (i: nat)
    requires r.epoch < 0x1_0000 && n in Accepted(r, events)
    ensures i < |events| && events[i].Arrive? && events[i].opens && events[i].plainLen <= 16384
    ensures events[i].epoch == (r.epoch + Changes(events[..i])) % 0x1_0000
    ensures n == Number(events[i].epoch, events[i].sequence)
    decreases events
  {
    var e, rest := events[0], events[1..];
    if Accepts(r, e) && n == Number(e.epoch, e.sequence) {
      i := 0;
    } else {
      hide Accepts;
      var k := AcceptedIsGenuine(Step(r, e), rest, n);
      i := k + 1;
      ChangesFirst(events, k);
    }
  }

  lemma ChangesFirst(events: seq<Event>, k: nat)
    requires k < |events|
    ensures Changes(events[..k + 1]) == (if events[0].NewEpoch? then 1 else 0) + Changes(events[1..][..k])
  {
    assert events[..k + 1][1..] == events[1..][..k];
  }

  /** The events without the records that do not open. */
  function Opening(events: seq<Event>): seq<Event> {
    if events == [] then []
    else (if events[0].Arrive? && !events[0].opens then [] else [events[0]]) + Opening(events[1..])
  }

  /** Whatever forged records are mixed in, the same numbers are let through. */
  lemma {:induction false} ForgeriesChangeNothing(r: Reader, events: seq<Event>)
    ensures Accepted(r, Opening(events)) == Accepted(r, events)
    decreases events
  {
    hide Accepts, Step;
    if events != [] {
      var e, rest := events[0], events[1..];
      ForgeriesChangeNothing(Step(r, e), rest);
      if e.Arrive? && !e.opens {
        ForgeryIsNothing(r, e);
        assert [] + Opening(rest) == Opening(rest);
      } else {
        FirstEvent(r, e, Opening(rest));
      }
    }
  }
}
