/** Reading delimited messages one after the other with one stream, whether they decode or not. */
module DelimitedReading {
  import opened Bits
  import opened Varint
  import opened Schema
  import opened Encoding
  import opened Decoding
  import opened Shortfall

  /** What a stream holds after a delimited message, decoded or not. Stopping short of the declared end puts that many
      bytes of the message in front, and as many are missing at the other end. */
  function DelimitedRest(fields: seq<Field>, s: seq<Byte>): (r: seq<Byte>)
    requires SchemaOK(fields) && DecDelimited(s).Parsed?
    ensures |r| == |DecDelimited(s).rest|
    ensures DelimitedShort(fields, s) == 0 ==> r == DecDelimited(s).rest
  {
    var sub, short := DecDelimited(s), DelimitedShort(fields, s);
    (sub.value[|sub.value| - short..] + sub.rest)[..|sub.rest|]
  }

  lemma StopsAt(source: seq<Byte>, from: nat, to: nat, end: nat, short: nat)
    requires from <= to <= end <= |source| && short <= to - from
    ensures (source[from..to][to - from - short..] + source[to..end])[..end - to] == source[to - short..end - short]
  {
    assert source[from..to][to - from - short..] == source[to - short..to];
    JoinedSlices(source, to - short, to, end);
    assert source[to - short..end][..end - to] == source[to - short..end - short];
  }

  lemma JoinedSlices(source: seq<Byte>, from: nat, to: nat, end: nat)
    requires from <= to <= end <= |source|
    ensures source[from..to] + source[to..end] == source[from..end]
  {
  }

  /** The bodies of the next `n` delimited messages. */
  function Bodies(n: nat, s: seq<Byte>): seq<seq<Byte>> {
    if n == 0 || DecDelimited(s).NoParse? then []
    else [DecDelimited(s).value] + Bodies(n - 1, DecDelimited(s).rest)
  }

  /** Reading `n` delimited messages with one stream, whether they decode or not. */
  function ReadOn(fields: seq<Field>, n: nat, s: seq<Byte>): seq<Option<Decoded>>
    requires SchemaOK(fields)
  {
    if n == 0 || DecDelimited(s).NoParse? then []
    else [Decode(fields, DecDelimited(s).value)] + ReadOn(fields, n - 1, DelimitedRest(fields, s))
  }

  /** As long as none of them stops short, every message is decoded from its own bytes, failures before it included. */
  lemma {:induction false} ReadOnInStep(fields: seq<Field>, n: nat, s: seq<Byte>)
    requires SchemaOK(fields) && forall b | b in Bodies(n, s) :: DefaultShort(fields, b) == 0
    ensures var bodies := Bodies(n, s);
      ReadOn(fields, n, s) == seq(|bodies|, k requires 0 <= k < |bodies| => Decode(fields, bodies[k]))
  {
    hide Decode, DefaultShort, DecDelimited, SchemaOK;
    if n > 0 && DecDelimited(s).Parsed? {
      var body, rest := DecDelimited(s).value, DecDelimited(s).rest;
      assert body in Bodies(n, s);
      assert forall b | b in Bodies(n - 1, rest) :: b in Bodies(n, s);
      ReadOnInStep(fields, n - 1, rest);
    }
  }

  // ----- an input at which it happens -----

  /** A table with one row: an array of numbers with room for a single one. */
  function OneItem(): (fields: seq<Field>)
    ensures SchemaOK(fields)
  {
    [Field(1, LUvarint, Repeated, 4, -4, 4, 1, None)]
  }

  lemma OneItemFull()
    ensures PackedUnread(OneItem()[0], [1, 2], 0) == 1
  {
    var f := OneItem()[0];
    assert DecVarint([1, 2]) == Parsed(1, [2]) by {
      assert Or64(0, Shl(1, 0) % TWO_64) == 1;
    }
    assert DecScalar(f, [1, 2]) == Parsed(Num(1), [2]);
    assert PackedUnread(f, [2], 1) == 1;
  }

  /** Two numbers for it, in a message of four bytes: the message fails, and the next one is looked for at the numbers. */
  lemma FullArrayStopsShort(t: seq<Byte>)
    ensures var body: seq<Byte>, s := [0x0A, 2, 1, 2], [4, 0x0A, 2, 1, 2] + t;
      && DecDelimited(s) == Parsed(body, t)
      && Decode(OneItem(), body) == None && DelimitedShort(OneItem(), s) == 2
      && DelimitedRest(OneItem(), s) == ([1, 2] + t)[..|t|]
  {
    var body: seq<Byte>, s: seq<Byte> := [0x0A, 2, 1, 2], [4, 0x0A, 2, 1, 2] + t;
    assert s[1..] == body + t;
    assert (body + t)[..4] == body && (body + t)[4..] == t;
    assert DecDelimited(s) == Parsed(body, t);
    assert DefaultShort(OneItem(), body) == 2 by { OneItemShort(); }
    hide MessageShort;
    DefaultNoneShort(OneItem(), body);
    assert body[2..] == [1, 2];
  }

  lemma OneItemShort()
    ensures DefaultShort(OneItem(), [0x0A, 2, 1, 2]) == 2
  {
    var fields, body: seq<Byte>, packed: seq<Byte> := OneItem(), [0x0A, 2, 1, 2], [2, 1, 2];
    var slots := DefaultMessage(fields);
    DefaultTyped(fields);
    assert body[1..] == packed;
    assert DecKey(body) == Key(WT_STRING, 1, packed);
    assert FindTag(fields, 1) == Some(0);
    assert packed[1..] == [1, 2];
    assert [1, 2][..2] == [1, 2] && [1, 2][2..] == [];
    assert DecDelimited(packed) == Parsed([1, 2], []);
    assert slots[0] == Many([]);
    hide PackedUnread;
    OneItemFull();
    assert FieldShort(fields, slots, 0, WT_STRING, packed) == 2;
    FieldNoneShort(fields, slots, 0, WT_STRING, packed);
  }
}
