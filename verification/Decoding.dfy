/** What the decoder does, as a function of the field table, the bytes and the message it starts from. */
module Decoding {
  import opened Bits
  import opened Varint
  import opened Schema
  import opened Encoding

  // ----- scalars -----

  function Signed64(v: nat): (n: int)
    requires v < TWO_64
    ensures SignedFits(n, 8)
  {
    if v < 0x8000_0000_0000_0000 then v else v - TWO_64
  }

  /** The `int32_t` cast of a 64-bit word. */
  function Signed32(v: nat): (n: int)
    ensures SignedFits(n, 4)
  {
    var w := v % TWO_32;
    if w < 0x8000_0000 then w else w - TWO_32
  }

  function Checked(ok: bool, n: int, rest: seq<Byte>): Parsed<Value> {
    if ok then Parsed(Num(n), rest) else NoParse
  }

  function DecScalar(f: Field, s: seq<Byte>): (p: Parsed<Value>)
    requires Packable(f.ltype)
    ensures p.Parsed? ==> ValueTyped(f, p.value) && |p.rest| < |s|
  {
    match f.ltype
    case LVarint =>
      var p := DecVarint(s);
      if p.NoParse? then NoParse
      else
        var n := if f.dataSize == 8 then Signed64(p.value) else Signed32(p.value);
        Checked(ValidIntSize(f.dataSize) && SignedFits(n, f.dataSize), n, p.rest)
    case LUvarint =>
      var p := DecVarint(s);
      if p.NoParse? then NoParse
      else Checked(ValidIntSize(f.dataSize) && UnsignedFits(p.value, f.dataSize), p.value, p.rest)
    case LSvarint =>
      var p := DecVarint(s);
      if p.NoParse? then NoParse
      else
        var n := Unzigzag(p.value);
        Checked(ValidIntSize(f.dataSize) && SignedFits(n, f.dataSize), n, p.rest)
    case LFixed32 => DecWord(s, 4)
    case LFixed64 => DecWord(s, 8)
  }

  function DecWord(s: seq<Byte>, width: nat): (p: Parsed<Value>)
    requires width == 4 || width == 8
    ensures p.Parsed? ==> p.value.Num? && 0 <= p.value.n < (if width == 4 then TWO_32 else TWO_64) && |p.rest| < |s|
  {
    var p := DecFixed(s, width);
    if p.NoParse? then NoParse
    else
      FixedUnique(s[..width]);
      Pow2Values();
      Parsed(Num(p.value), p.rest)
  }

  // ----- length-delimited values -----

  /** A declared length and that many bytes: what a substream covers, and what follows it. */
  function DecDelimited(s: seq<Byte>): (p: Parsed<seq<Byte>>)
    ensures p.Parsed? ==> |p.value| + |p.rest| < |s| && |p.value| < TWO_32
  {
    var n := DecVarint32(s);
    if n.NoParse? || |n.rest| < n.value then NoParse
    else Parsed(n.rest[..n.value], n.rest[n.value..])
  }

  /** A C string ends at its first NUL. */
  function UpToNul(b: seq<Byte>): (r: seq<Byte>)
    ensures |r| <= |b| && 0 !in r && r <= b && (0 !in b ==> r == b)
    ensures |r| < |b| ==> b[|r|] == 0
  {
    if b == [] || b[0] == 0 then [] else [b[0]] + UpToNul(b[1..])
  }

  function DecBlob(f: Field, s: seq<Byte>): (p: Parsed<Value>)
    requires f.ltype.LBytes? || f.ltype.LString? || f.ltype.LFixedLengthBytes?
    ensures p.Parsed? ==> ValueTyped(f, p.value) && |p.rest| < |s|
  {
    var n := DecVarint32(s);
    if n.NoParse? then NoParse
    else
      match f.ltype
      case LBytes =>
        if n.value + BYTES_HEADER > f.dataSize || |n.rest| < n.value then NoParse
        else Parsed(Blob(n.rest[..n.value]), n.rest[n.value..])
      case LString =>
        if n.value == SIZE_MAX || n.value + 1 > f.dataSize || |n.rest| < n.value then NoParse
        else Parsed(Blob(UpToNul(n.rest[..n.value])), n.rest[n.value..])
      case LFixedLengthBytes =>
        if n.value == 0 then Parsed(Blob(ZeroBytes(f.dataSize)), n.rest)
        else if n.value != f.dataSize || |n.rest| < n.value then NoParse
        else Parsed(Blob(n.rest[..n.value]), n.rest[n.value..])
  }

  // ----- keys and unknown fields -----

  datatype Key = BadKey | EndOfMessage(rest: seq<Byte>) | Key(wireType: nat, tag: nat, rest: seq<Byte>)

  /** A zero key ends the message. */
  function DecKey(s: seq<Byte>): (k: Key)
    ensures k.Key? ==> |k.rest| < |s| && k.wireType < 8 && k.tag <= MAX_TAG
    ensures k.EndOfMessage? ==> |k.rest| <= |s|
  {
    if s == [] then EndOfMessage(s)
    else
      var p := DecVarint32(s);
      if p.NoParse? then BadKey
      else if p.value == 0 then EndOfMessage(p.rest)
      else Key(p.value % 8, p.value / 8, p.rest)
  }

  function Skip(s: seq<Byte>, n: nat): (p: Parsed<()>)
    ensures p.Parsed? ==> |p.rest| <= |s|
  {
    if |s| < n then NoParse else Parsed((), s[n..])
  }

  function SkipVarint(s: seq<Byte>): (p: Parsed<()>)
    ensures p.Parsed? ==> |p.rest| < |s|
  {
    if s == [] then NoParse
    else if s[0] >= 128 then SkipVarint(s[1..])
    else Parsed((), s[1..])
  }

  function SkipField(s: seq<Byte>, wireType: nat): (p: Parsed<()>)
    ensures p.Parsed? ==> |p.rest| <= |s|
  {
    if wireType == WT_VARINT then SkipVarint(s)
    else if wireType == WT_64BIT then Skip(s, 8)
    else if wireType == WT_STRING then
      var n := DecVarint32(s);
      if n.NoParse? then NoParse else Skip(n.rest, n.value)
    else if wireType == WT_32BIT then Skip(s, 4)
    else NoParse
  }

  /** The row with a given tag. */
  function FindTag(fields: seq<Field>, tag: nat): (r: Option<nat>)
    ensures r.Some? ==> r.value < |fields| && fields[r.value].tag == tag
    ensures r.None? ==> forall i :: 0 <= i < |fields| ==> fields[i].tag != tag
  {
    if fields == [] then None
    else if fields[0].tag == tag then Some(0)
    else
      var r := FindTag(fields[1..], tag);
      assert r.None? ==> forall i :: 1 <= i < |fields| ==> fields[i].tag != tag by {
        if r.None? {
          forall i | 1 <= i < |fields| ensures fields[i].tag != tag {
            assert fields[i] == fields[1..][i - 1];
          }
        }
      }
      if r.None? then None else Some(r.value + 1)
  }

  // ----- fields -----

  /** One value of field `f`, decoded over the current contents `cur` of its storage. */
  function DecValue(f: Field, cur: Value, s: seq<Byte>): (p: Parsed<Value>)
    requires FieldOK(f) && ValueTyped(f, cur)
    ensures p.Parsed? ==> ValueTyped(f, p.value) && |p.rest| < |s|
    decreases |s|, 1
  {
    if Packable(f.ltype) then DecScalar(f, s)
    else if !f.ltype.LSubmessage? then DecBlob(f, s)
    else
      var sub := DecDelimited(s);
      if sub.NoParse? then NoParse
      else
        var fields := f.ltype.fields;
        DefaultTyped(fields);
        var start := if f.htype.Repeated? then DefaultMessage(fields) else cur.slots;
        match DecodeNoinit(fields, sub.value, start)
        case None => NoParse
        case Some(r) => Parsed(Struct(r.slots), sub.rest)
  }

  /** The items of a packed array after those in `vs`; all of `s` must be used up. */
  function DecPacked(f: Field, s: seq<Byte>, vs: seq<Value>): (r: Option<seq<Value>>)
    requires Packable(f.ltype) && forall k :: 0 <= k < |vs| ==> ValueTyped(f, vs[k])
    ensures r.Some? ==> forall k :: 0 <= k < |r.value| ==> ValueTyped(f, r.value[k])
    decreases |s|
  {
    if s == [] then Some(vs)
    else if |vs| >= f.arraySize then None
    else
      var p := DecScalar(f, s);
      if p.NoParse? then None else DecPacked(f, p.rest, vs + [p.value])
  }

  /** What is stored where a new value of the field will go. */
  function Current(f: Field, s: Slot): (v: Value)
    requires FieldOK(f) && SlotTyped(f, s)
    ensures ValueTyped(f, v)
  {
    DefaultValueTyped(f);
    if f.htype.Required? || Singular(f) then s.v
    else if f.htype.Optional? && s.o.Some? then s.o.value
    else DefaultValue(f)
  }

  /** Putting alternative `i` into its union puts every other alternative out. */
  function SetAlternative(fields: seq<Field>, slots: seq<Slot>, i: nat, v: Value): (r: seq<Slot>)
    requires |slots| == |fields| && i < |fields|
    ensures |r| == |slots| && r[i] == Maybe(Some(v))
    ensures forall j :: 0 <= j < |slots| && j != i ==>
      r[j] == if SameUnion(fields[i], fields[j]) then Maybe(None) else slots[j]
  {
    seq(|slots|, j requires 0 <= j < |slots| =>
      if j == i then Maybe(Some(v)) else if SameUnion(fields[i], fields[j]) then Maybe(None) else slots[j])
  }

  /** Storing a decoded value in row `i`. */
  function Store(fields: seq<Field>, slots: seq<Slot>, i: nat, v: Value): (r: seq<Slot>)
    requires Typed(fields, slots) && i < |fields| && SlotTyped(fields[i], slots[i]) && ValueTyped(fields[i], v)
    ensures Typed(fields, r)
  {
    var f := fields[i];
    match f.htype
    case Required => slots[i := Single(v)]
    case Optional => slots[i := if Singular(f) then Single(v) else Maybe(Some(v))]
    case Repeated => slots[i := Many(slots[i].vs + [v])]
    case Oneof(_) => SetAlternative(fields, slots, i, v)
  }

  /** One occurrence of row `i`, whose key announced `wireType`. */
  function DecField(fields: seq<Field>, slots: seq<Slot>, i: nat, wireType: nat, s: seq<Byte>): (p: Parsed<seq<Slot>>)
    requires SchemaOK(fields) && Typed(fields, slots) && i < |fields|
    ensures p.Parsed? ==> Typed(fields, p.value) && |p.rest| < |s|
    decreases |s|, 2
  {
    var f, slot := fields[i], slots[i];
    assert FieldOK(f) && SlotTyped(f, slot);
    if f.htype.Repeated? && wireType == WT_STRING && Packable(f.ltype) then
      var sub := DecDelimited(s);
      if sub.NoParse? then NoParse
      else
        match DecPacked(f, sub.value, slot.vs)
        case None => NoParse
        case Some(vs) => Parsed(slots[i := Many(vs)], sub.rest)
    else if f.htype.Repeated? && |slot.vs| >= f.arraySize then NoParse
    else
      var p := DecValue(f, Current(f, slot), s);
      if p.NoParse? then NoParse else Parsed(Store(fields, slots, i, p.value), p.rest)
  }

  // ----- messages -----

  /** Where a run over the fields of a message ended: the message, the tags met, the unread bytes, and
      whether a zero key ended it. */
  datatype Run = Failed | Finished(slots: seq<Slot>, seen: set<nat>, rest: seq<Byte>, zeroKey: bool)

  function DecFields(fields: seq<Field>, s: seq<Byte>, slots: seq<Slot>, seen: set<nat>): (r: Run)
    requires SchemaOK(fields) && Typed(fields, slots)
    ensures r.Finished? ==> Typed(fields, r.slots) && |r.rest| <= |s| && seen <= r.seen
    ensures r.Finished? && !r.zeroKey ==> r.rest == []
    decreases |s|, 3
  {
    if s == [] then Finished(slots, seen, [], false)
    else
      match DecKey(s)
      case BadKey => Failed
      case EndOfMessage(rest) => Finished(slots, seen, rest, true)
      case Key(wireType, tag, rest) =>
        match FindTag(fields, tag)
        case None =>
          // In an empty table the search for tag 0 finds the terminator row, which no value fits.
          if fields == [] && tag == 0 then Failed
          else
            var p := SkipField(rest, wireType);
            if p.NoParse? then Failed else DecFields(fields, p.rest, slots, seen)
        case Some(i) =>
          var p := DecField(fields, slots, i, wireType, rest);
          if p.NoParse? then Failed else DecFields(fields, p.rest, p.value, seen + {tag})
  }

  /** How many required rows precede row `i`. */
  function RequiredIndex(fields: seq<Field>, i: nat): nat
    requires i <= |fields|
  {
    if i == 0 then 0
    else RequiredIndex(fields, i - 1) + if fields[i - 1].htype.Required? then 1 else 0
  }

  /** Every one of the first 64 required rows was met. */
  predicate RequiredSeen(fields: seq<Field>, seen: set<nat>) {
    forall i :: 0 <= i < |fields| && fields[i].htype.Required? && RequiredIndex(fields, i) < MAX_REQUIRED_FIELDS ==>
      fields[i].tag in seen
  }

  datatype Decoded = Decoded(slots: seq<Slot>, rest: seq<Byte>)

  function DecodeNoinit(fields: seq<Field>, s: seq<Byte>, slots: seq<Slot>): (r: Option<Decoded>)
    requires SchemaOK(fields) && Typed(fields, slots)
    ensures r.Some? ==> Typed(fields, r.value.slots) && |r.value.rest| <= |s|
    decreases |s|, 4
  {
    match DecFields(fields, s, slots, {})
    case Failed => None
    case Finished(slots', seen, rest, _) =>
      if RequiredSeen(fields, seen) then Some(Decoded(slots', rest)) else None
  }

  function Decode(fields: seq<Field>, s: seq<Byte>): (r: Option<Decoded>)
    requires SchemaOK(fields)
    ensures r.Some? ==> Typed(fields, r.value.slots) && |r.value.rest| <= |s|
  {
    DefaultTyped(fields);
    DecodeNoinit(fields, s, DefaultMessage(fields))
  }
}
