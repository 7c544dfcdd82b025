/** Taking the RSA premaster secret out of a decrypted block with masks alone (section 7.2.2 of RFC 3447 and
    section 7.4.7.1 of RFC 5246). */
module Premaster {
  import opened Bits

  /** `SSL_MAX_MASTER_KEY_LENGTH`. */
  const PREMASTER_LENGTH: nat := 48

  /** The bytes of padding around a premaster at least. */
  const OVERHEAD: nat := 11

  // ----- masks -----

  /** `constant_time_msb_w`: the top bit in every position. */
  function MsbW(a: bv64): (r: bv64)
    ensures r == if a >= 0x8000_0000_0000_0000 then 0xFFFF_FFFF_FFFF_FFFF else 0
  {
    0 - (a >> 63)
  }

  /** `constant_time_is_zero_w`. */
  function IsZeroW(a: bv64): (r: bv64)
    ensures r == if a == 0 then 0xFFFF_FFFF_FFFF_FFFF else 0
  {
    MsbW(!a & (a - 1))
  }

  /** `constant_time_eq_w`. */
  function EqW(a: bv64, b: bv64): (r: bv64)
    ensures r == if a == b then 0xFFFF_FFFF_FFFF_FFFF else 0
  {
    IsZeroW(a ^ b)
  }

  function Low8(a: bv64): bv8 {
    (a & 0xFF) as bv8
  }

  function Wide(a: bv8): bv64 {
    a as bv64
  }

  /** `constant_time_is_zero_8`. */
  function IsZero8(a: bv8): (r: bv8)
    ensures r == if a == 0 then 0xFF else 0
  {
    Low8(IsZeroW(Wide(a)))
  }

  /** `constant_time_eq_8`. */
  function Eq8(a: bv8, b: bv8): (r: bv8)
    ensures r == if a == b then 0xFF else 0
  {
    Low8(EqW(Wide(a), Wide(b)))
  }

  /** `constant_time_select_8`. */
  function Select8(mask: bv8, a: bv8, b: bv8): (r: bv8)
    requires mask == 0 || mask == 0xFF
    ensures r == if mask == 0xFF then a else b
  {
    Low8((Wide(mask) & Wide(a)) | (!Wide(mask) & Wide(b)))
  }

  // ----- what is to be selected -----

  /** The first zero byte from `i` on; the length if there is none. */
  function FirstZero(block: seq<bv8>, i: nat): (z: nat)
    requires i <= |block|
    ensures i <= z <= |block| && (forall k :: i <= k < z ==> block[k] != 0) && (z < |block| ==> block[z] == 0)
    decreases |block| - i
  {
    if i == |block| || block[i] == 0 then i else FirstZero(block, i + 1)
  }

  /** Decoding a block: 0, 2, at least eight nonzero bytes, 0, and the message. */
  function Unpad(block: seq<bv8>): Option<seq<bv8>> {
    if |block| < 2 || block[0] != 0 || block[1] != 2 then None
    else
      var z := FirstZero(block, 2);
      if z == |block| || z < 10 then None else Some(block[z + 1..])
  }

  /** A padded message (section 7.2.1 of RFC 3447): at least eight bytes of padding, none of them zero. */
  function Pad(padding: seq<bv8>, m: seq<bv8>): seq<bv8> {
    [0, 2] + padding + [0] + m
  }

  lemma PaddedIs(block: seq<bv8>, padding: seq<bv8>, m: seq<bv8>)
    requires |padding| >= 8 && 0 !in padding && block == Pad(padding, m)
    ensures Unpad(block) == Some(m)
  {
    var n := |padding| + 2;
    assert block[0] == 0 && block[1] == 2 && block[n] == 0 && block[n + 1..] == m;
    forall k | 2 <= k < n ensures block[k] != 0 {
      assert block[k] == padding[k - 2];
    }
    assert FirstZero(block, 2) == n;
  }

  lemma UnpaddedIs(block: seq<bv8>, m: seq<bv8>) returns (padding: seq<bv8>)
    requires Unpad(block) == Some(m)
    ensures |padding| >= 8 && 0 !in padding && block == Pad(padding, m)
  {
    var z := FirstZero(block, 2);
    padding := block[2..z];
    assert block == block[..2] + padding + [block[z]] + block[z + 1..];
    assert block[..2] == [0, 2];
  }

  /** A block decodes to a message exactly if it is that message padded. */
  lemma UnpadIs(block: seq<bv8>, m: seq<bv8>)
    ensures Unpad(block) == Some(m) <==> exists padding :: |padding| >= 8 && 0 !in padding && block == Pad(padding, m)
  {
    hide Unpad, Pad;
    if Unpad(block) == Some(m) {
      var padding := UnpaddedIs(block, m);
    }
    if padding :| |padding| >= 8 && 0 !in padding && block == Pad(padding, m) {
      PaddedIs(block, padding, m);
    }
  }

  /** The block holds a premaster secret of the right length that begins with the version the client offered. */
  predicate Holds(block: seq<bv8>, high: bv8, low: bv8) {
    var m := Unpad(block);
    m.Some? && |m.value| == PREMASTER_LENGTH && m.value[0] == high && m.value[1] == low
  }

  /** The block is a secret of 48 bytes padded, and the secret begins with the version. */
  lemma HoldsIs(block: seq<bv8>, high: bv8, low: bv8)
    ensures Holds(block, high, low) <==>
      exists padding, m ::
        |padding| >= 8 && 0 !in padding && |m| == 48 && m[0] == high && m[1] == low && block == Pad(padding, m)
  {
    hide Unpad, Pad;
    if Holds(block, high, low) {
      var padding := UnpaddedIs(block, Unpad(block).value);
    }
    if padding, m :|
      |padding| >= 8 && 0 !in padding && |m| == 48 && m[0] == high && m[1] == low && block == Pad(padding, m)
    {
      PaddedIs(block, padding, m);
    }
  }

  /** The same, place by place. */
  predicate Good(block: seq<bv8>, high: bv8, low: bv8)
    requires |block| >= OVERHEAD + PREMASTER_LENGTH
  {
    var p := |block| - PREMASTER_LENGTH;
    && block[0] == 0 && block[1] == 2 && (forall i :: 2 <= i < p - 1 ==> block[i] != 0) && block[p - 1] == 0
    && block[p] == high && block[p + 1] == low
  }

  lemma GoodHolds(block: seq<bv8>, high: bv8, low: bv8)
    requires |block| >= OVERHEAD + PREMASTER_LENGTH
    ensures Good(block, high, low) <==> Holds(block, high, low)
    ensures Good(block, high, low) ==> Unpad(block) == Some(block[|block| - PREMASTER_LENGTH..])
  {
    var p, z := |block| - PREMASTER_LENGTH, FirstZero(block, 2);
    if block[p - 1] == 0 && (forall i :: 2 <= i < p - 1 ==> block[i] != 0) {
      assert z == p - 1;
    }
    if z == p - 1 {
      assert block[p..][0] == block[p] && block[p..][1] == block[p + 1];
    }
  }

  function Mask(b: bool): bv8 {
    if b then 0xFF else 0
  }

  /** Whether the block is good, in a mask, looking at every byte of the padding whatever it finds. */
  method CheckPadding(block: seq<bv8>, high: bv8, low: bv8) returns (good: bv8)
    requires |block| >= OVERHEAD + PREMASTER_LENGTH
    ensures good == Mask(Good(block, high, low))
  {
    hide IsZero8, Eq8;
    var paddingLen := |block| - PREMASTER_LENGTH;
    good := Eq8(block[0], 0) & Eq8(block[1], 2);
    var i := 2;
    while i < paddingLen - 1
      invariant 2 <= i <= paddingLen - 1
      invariant good == Mask(block[0] == 0 && block[1] == 2 && forall k :: 2 <= k < i ==> block[k] != 0)
    {
      good := good & !IsZero8(block[i]);
      i := i + 1;
    }
    good := good & IsZero8(block[paddingLen - 1]);
    good := good & Eq8(block[paddingLen], high);
    good := good & Eq8(block[paddingLen + 1], low);
  }

  /** The RSA part of `do_read_client_key_exchange` after decryption: a block that is too short is refused for all to
      see; otherwise the premaster is what the block holds, or stays the random one, byte for byte. */
  method SelectPremaster(block: seq<bv8>, high: bv8, low: bv8, premaster: array<bv8>) returns (ok: bool)
    requires premaster.Length == 48
    modifies premaster
    ensures ok <==> |block| >= 59
    ensures ok && Holds(block, high, low) ==> Unpad(block) == Some(premaster[..])
    ensures !ok || !Holds(block, high, low) ==> premaster[..] == old(premaster[..])
  {
    hide Select8;
    if |block| < OVERHEAD + PREMASTER_LENGTH {
      return false;
    }
    var paddingLen := |block| - PREMASTER_LENGTH;
    var good := CheckPadding(block, high, low);
    GoodHolds(block, high, low);
    ghost var random := premaster[..];
    var i := 0;
    while i < PREMASTER_LENGTH
      invariant 0 <= i <= PREMASTER_LENGTH
      invariant forall k :: 0 <= k < i ==> premaster[k] == if good == 0xFF then block[paddingLen + k] else random[k]
      invariant forall k :: i <= k < PREMASTER_LENGTH ==> premaster[k] == random[k]
    {
      premaster[i] := Select8(good, block[paddingLen + i], premaster[i]);
      i := i + 1;
    }
    if good == 0xFF {
      assert premaster[..] == block[paddingLen..];
    } else {
      assert premaster[..] == random;
    }
    ok := true;
  }
}
