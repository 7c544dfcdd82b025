/** DTLS handshake fragments: a 12-byte header and a slice of a message body (section 4.2.2 of RFC 6347). */
module Fragments {
  import opened Bits

  const HEADER_LENGTH: nat := 12

  /** `hm_header_st`. */
  datatype Header = Header(typ: Byte, msgLen: nat, seqNo: nat, fragOff: nat, fragLen: nat)

  predicate HeaderOK(h: Header) {
    h.msgLen < 0x100_0000 && h.seqNo < 0x1_0000 && h.fragOff < 0x100_0000 && h.fragLen < 0x100_0000
  }

  function U16(n: nat): (s: seq<Byte>)
    requires n < 0x1_0000
    ensures |s| == 2
  {
    [n / 256, n % 256]
  }

  function U24(n: nat): (s: seq<Byte>)
    requires n < 0x100_0000
    ensures |s| == 3
  {
    [n / 65536, n / 256 % 256, n % 256]
  }

  function FromU24(s: seq<Byte>): (n: nat)
    requires |s| == 3
    ensures n < 0x100_0000
  {
    var a: nat, b: nat, c: nat := s[0], s[1], s[2];
    a * 65536 + b * 256 + c
  }

  function EncHeader(h: Header): (s: seq<Byte>)
    requires HeaderOK(h)
    ensures |s| == HEADER_LENGTH
  {
    [h.typ] + U24(h.msgLen) + U16(h.seqNo) + U24(h.fragOff) + U24(h.fragLen)
  }

  datatype Parsed = BadFragment | Fragment(header: Header, body: seq<Byte>, rest: seq<Byte>)

  /** `dtls1_parse_fragment`. */
  function ParseFragment(s: seq<Byte>): (r: Parsed)
    ensures r.Fragment? ==> HeaderOK(r.header) && |r.body| == r.header.fragLen
    ensures r.Fragment? ==> |s| == HEADER_LENGTH + |r.body| + |r.rest|
  {
    if |s| < HEADER_LENGTH then BadFragment
    else
      var fragLen := FromU24(s[9..12]);
      if |s| < HEADER_LENGTH + fragLen then BadFragment
      else
        var high: nat := s[4];
        var h := Header(s[0], FromU24(s[1..4]), high * 256 + s[5], FromU24(s[6..9]), fragLen);
        Fragment(h, s[12..12 + fragLen], s[12 + fragLen..])
  }

  lemma U24RoundTrip(n: nat)
    requires n < 0x100_0000
    ensures FromU24(U24(n)) == n
  {
  }

  lemma U24Unique(s: seq<Byte>)
    requires |s| == 3
    ensures U24(FromU24(s)) == s
  {
    var a, b, c := s[0] as nat, s[1] as nat, s[2] as nat;
    var n := a * 65536 + b * 256 + c;
    assert n / 65536 == a;
    assert n / 256 == a * 256 + b;
  }

  lemma HeaderParts(h: Header, t: seq<Byte>)
    requires HeaderOK(h)
    ensures var s := EncHeader(h) + t;
      && |s| >= 12 && s[0] == h.typ && s[1..4] == U24(h.msgLen) && s[4..6] == U16(h.seqNo)
      && s[6..9] == U24(h.fragOff) && s[9..12] == U24(h.fragLen) && s[12..] == t
  {
    hide U24, U16;
  }

  /** Writing a fragment and parsing it is the identity, whatever follows it. */
  lemma FragmentRoundTrip(h: Header, body: seq<Byte>, rest: seq<Byte>)
    requires HeaderOK(h) && |body| == h.fragLen
    ensures ParseFragment(EncHeader(h) + body + rest) == Fragment(h, body, rest)
  {
    hide EncHeader, FromU24, U24;
    var s := EncHeader(h) + body + rest;
    assert s == EncHeader(h) + (body + rest);
    HeaderParts(h, body + rest);
    U24RoundTrip(h.msgLen);
    U24RoundTrip(h.fragOff);
    U24RoundTrip(h.fragLen);
    assert s[4] == s[4..6][0] && s[5] == s[4..6][1];
    assert s[12..12 + h.fragLen] == body && s[12 + h.fragLen..] == rest;
  }

  /** The parser accepts nothing else. */
  lemma ParsedIsWritten(s: seq<Byte>)
    requires ParseFragment(s).Fragment?
    ensures var r := ParseFragment(s); s == EncHeader(r.header) + r.body + r.rest
  {
    hide FromU24, U24;
    var h := ParseFragment(s).header;
    U24Unique(s[1..4]);
    U24Unique(s[6..9]);
    U24Unique(s[9..12]);
    assert U16(h.seqNo) == s[4..6];
    assert s[..12] == [s[0]] + s[1..4] + s[4..6] + s[6..9] + s[9..12];
  }
}
