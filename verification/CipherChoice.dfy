/** The server's choice of a cipher, with groups of equal preference. */
module CipherChoice {
  import opened Bits

  /** `SSL_CIPHER`: an identity, the versions it is for, and its bits for key exchange and authentication. */
  datatype Cipher = Cipher(id: nat, minVersion: nat, maxVersion: nat, mkey: nat, auth: nat)

  /** The negotiated version and what the server can do. */
  datatype Config = Config(version: nat, maskK: nat, maskA: nat)

  /** The cipher exists in this version and the server is configured for it. */
  predicate Usable(cfg: Config, c: Cipher) {
    && c.minVersion <= cfg.version <= c.maxVersion
    && And(c.mkey, cfg.maskK) != 0 && And(c.auth, cfg.maskA) != 0
  }

  /** Where a list has a cipher first (`sk_SSL_CIPHER_find`). */
  function Find(list: seq<Cipher>, c: Cipher): (i: Option<nat>)
    ensures i.Some? <==> c in list
    ensures i.Some? ==> i.value < |list| && list[i.value] == c && forall k :: 0 <= k < i.value ==> list[k] != c
  {
    if list == [] then None
    else if list[0] == c then Some(0)
    else
      var r := Find(list[1..], c);
      if r.None? then None else Some(r.value + 1)
  }

  /** Place `i` of the preferred list may be chosen. */
  predicate Acceptable(cfg: Config, prio: seq<Cipher>, allow: seq<Cipher>, i: nat)
    requires i < |prio|
  {
    Usable(cfg, prio[i]) && prio[i] in allow
  }

  /** The rank the other side gives to place `i`. */
  function Rank(prio: seq<Cipher>, allow: seq<Cipher>, i: nat): nat
    requires i < |prio| && prio[i] in allow
  {
    Find(allow, prio[i]).value
  }

  /** One flag a cipher, 1 for all of a group but its last. */
  predicate FlagsOK(flags: Option<seq<nat>>, n: nat) {
    flags.Some? ==>
      && |flags.value| == n && (forall i :: 0 <= i < n ==> flags.value[i] <= 1)
      && (n > 0 ==> flags.value[n - 1] == 0)
  }

  /** Places `i` up to `j` belong to one group; without flags every place is alone. */
  predicate SameGroup(flags: Option<seq<nat>>, i: nat, j: nat)
    requires flags.Some? ==> j < |flags.value|
  {
    i <= j && if flags.None? then i == j else forall k :: i <= k < j ==> flags.value[k] == 1
  }

  /** Place `j` is in the earliest group with an acceptable place, and no acceptable place of that group has a better
      rank. */
  ghost predicate Best(cfg: Config, prio: seq<Cipher>, flags: Option<seq<nat>>, allow: seq<Cipher>, j: nat)
    requires FlagsOK(flags, |prio|)
  {
    && j < |prio| && Acceptable(cfg, prio, allow, j)
    && (forall k: nat :: k < j && Acceptable(cfg, prio, allow, k) ==> SameGroup(flags, k, j))
    && (forall k: nat ::
          k < |prio| && Acceptable(cfg, prio, allow, k) && (SameGroup(flags, j, k) || SameGroup(flags, k, j)) ==>
          Rank(prio, allow, j) <= Rank(prio, allow, k))
  }

  /** Place `j` has the best rank of the acceptable places from `first` up to `i`. */
  ghost predicate BestSoFar(cfg: Config, prio: seq<Cipher>, allow: seq<Cipher>, first: nat, i: nat, j: nat)
    requires i <= |prio|
  {
    && first <= j < i && Acceptable(cfg, prio, allow, j)
    && forall k: nat :: first <= k < i && Acceptable(cfg, prio, allow, k) ==> Rank(prio, allow, j) <= Rank(prio, allow, k)
  }

  /** The group from `first` ends before `end`, and nothing before it is acceptable. */
  ghost predicate GroupIs(cfg: Config, prio: seq<Cipher>, flags: Option<seq<nat>>, allow: seq<Cipher>, first: nat,
      end: nat)
    requires FlagsOK(flags, |prio|)
  {
    && first < end <= |prio|
    && (forall k: nat :: k < first ==> !Acceptable(cfg, prio, allow, k))
    && SameGroup(flags, first, end - 1) && (flags.Some? ==> flags.value[end - 1] == 0)
  }

  lemma BestOfGroup(cfg: Config, prio: seq<Cipher>, flags: Option<seq<nat>>, allow: seq<Cipher>, first: nat, end: nat,
      j: nat)
    requires FlagsOK(flags, |prio|) && GroupIs(cfg, prio, flags, allow, first, end)
    requires BestSoFar(cfg, prio, allow, first, end, j)
    ensures Best(cfg, prio, flags, allow, j)
  {
    hide Usable, Rank;
    forall k: nat | k < |prio| && Acceptable(cfg, prio, allow, k) && (SameGroup(flags, j, k) || SameGroup(flags, k, j))
      ensures Rank(prio, allow, j) <= Rank(prio, allow, k)
    {
      assert first <= k < end;
    }
  }

  /** The search: one pass over the preferred list. */
  method Search(cfg: Config, prio: seq<Cipher>, flags: Option<seq<nat>>, allow: seq<Cipher>)
    returns (choice: Option<Cipher>)
    requires FlagsOK(flags, |prio|)
    ensures choice.None? <==> forall k: nat :: k < |prio| ==> !Acceptable(cfg, prio, allow, k)
    ensures choice.Some? ==> exists j: nat :: Best(cfg, prio, flags, allow, j) && choice.value == prio[j]
  {
    hide Best, Usable, Find;
    var groupMin: int := -1;
    ghost var first: nat, best: nat := 0, 0;
    var i: nat := 0;
    while i < |prio|
      invariant first <= i <= |prio|
      invariant forall k: nat :: k < first ==> !Acceptable(cfg, prio, allow, k)
      invariant flags.None? ==> first == i
      invariant flags.Some? ==> forall k :: first <= k < i ==> flags.value[k] == 1
      invariant i > first ==> flags.Some? && flags.value[|prio| - 1] == 0
      invariant groupMin == -1 ==> forall k: nat :: first <= k < i ==> !Acceptable(cfg, prio, allow, k)
      invariant groupMin != -1 ==> BestSoFar(cfg, prio, allow, first, i, best) && groupMin == Rank(prio, allow, best)
    {
      var c := prio[i];
      var at := Find(allow, c);
      if Usable(cfg, c) && at.Some? {
        var index := at.value;
        if groupMin == -1 || groupMin > index { best := i; }
        if flags.Some? && flags.value[i] == 1 {
          if groupMin == -1 || groupMin > index {
            groupMin := index;
          }
        } else {
          if groupMin != -1 && groupMin < index {
            index := groupMin;
          }
          BestOfGroup(cfg, prio, flags, allow, first, i + 1, best);
          return Some(allow[index]);
        }
      }
      if flags.Some? && flags.value[i] == 0 && groupMin != -1 {
        BestOfGroup(cfg, prio, flags, allow, first, i + 1, best);
        return Some(allow[groupMin]);
      }
      if flags.None? || flags.value[i] == 0 { first := i + 1; }
      i := i + 1;
    }
    return None;
  }

  /** `Best` leaves no choice. */
  lemma BestIsUnique(cfg: Config, prio: seq<Cipher>, flags: Option<seq<nat>>, allow: seq<Cipher>, j: nat, k: nat)
    requires FlagsOK(flags, |prio|) && Best(cfg, prio, flags, allow, j) && Best(cfg, prio, flags, allow, k)
    ensures prio[j] == prio[k]
  {
    hide Usable, Find;
    assert SameGroup(flags, if j <= k then j else k, if j <= k then k else j);
    assert Rank(prio, allow, j) == Rank(prio, allow, k);
  }

  /** Without groups the best is the first. */
  lemma BestIsFirst(cfg: Config, prio: seq<Cipher>, allow: seq<Cipher>, j: nat)
    ensures Best(cfg, prio, None, allow, j)
       <==> j < |prio| && Acceptable(cfg, prio, allow, j) && forall k: nat :: k < j ==> !Acceptable(cfg, prio, allow, k)
  {
    hide Usable, Find;
    if Best(cfg, prio, None, allow, j) {
      forall k: nat | k < j ensures !Acceptable(cfg, prio, allow, k) {
        assert !SameGroup(None, k, j);
      }
    }
  }

  /** Inside a group the other side's order decides, between groups one's own. */
  lemma GroupsOfTwo(cfg: Config, a: Cipher, b: Cipher, j: nat)
    requires Usable(cfg, a) && Usable(cfg, b) && a != b
    ensures Best(cfg, [a, b], Some([1, 0]), [b, a], j) <==> j == 1
    ensures Best(cfg, [a, b], Some([0, 0]), [b, a], j) <==> j == 0
  {
    hide Usable;
    var prio, allow := [a, b], [b, a];
    assert allow[1..][0] == a;
    assert Rank(prio, allow, 0) == 1 && Rank(prio, allow, 1) == 0;
    assert Acceptable(cfg, prio, allow, 0) && Acceptable(cfg, prio, allow, 1);
    assert SameGroup(Some([1, 0]), 0, 1) && !SameGroup(Some([0, 0]), 0, 1) by { assert [0, 0][0] == 0; }
    assert SameGroup(Some([0, 0]), 0, 0) && SameGroup(Some([1, 0]), 1, 1);
  }

  /** `ssl3_choose_cipher`: by the server's groups with the client's ranks inside them, or by the client's list. */
  method ChooseCipher(cfg: Config, serverPreference: bool, server: seq<Cipher>, groupFlags: Option<seq<nat>>,
      client: seq<Cipher>)
    returns (choice: Option<Cipher>)
    requires FlagsOK(groupFlags, |server|)
    ensures choice.None? <==> forall c | c in server && c in client :: !Usable(cfg, c)
    ensures choice.Some? && serverPreference ==>
      exists j: nat :: Best(cfg, server, groupFlags, client, j) && choice.value == server[j]
    ensures choice.Some? && !serverPreference ==>
      exists j: nat :: Best(cfg, client, None, server, j) && choice.value == client[j]
  {
    hide Best, Usable, Find;
    if serverPreference {
      choice := Search(cfg, server, groupFlags, client);
      NoneInBoth(cfg, server, client);
    } else {
      choice := Search(cfg, client, None, server);
      NoneInBoth(cfg, client, server);
    }
  }

  lemma NoneInBoth(cfg: Config, prio: seq<Cipher>, allow: seq<Cipher>)
    ensures (forall k: nat :: k < |prio| ==> !Acceptable(cfg, prio, allow, k)) <==>
      (forall c | c in prio && c in allow :: !Usable(cfg, c))
  {
    hide Usable;
    if forall k: nat :: k < |prio| ==> !Acceptable(cfg, prio, allow, k) {
      forall c | c in prio && c in allow ensures !Usable(cfg, c) {
        var k :| 0 <= k < |prio| && prio[k] == c;
        assert !Acceptable(cfg, prio, allow, k);
      }
    }
  }

  // ----- masks -----

  lemma {:induction false} SomeBit(w: nat) returns (j: nat)
    requires w != 0
    ensures Bit(w, j)
  {
    if w % 2 == 1 {
      j := 0;
    } else {
      var k := SomeBit(w / 2);
      BitHalves(w, k + 1);
      j := k + 1;
    }
  }

  /** Two sets of bits meet. */
  lemma MasksMeet(a: nat, b: nat)
    ensures And(a, b) != 0 <==> exists j :: Bit(a, j) && Bit(b, j)
  {
    hide Bit, And;
    if And(a, b) != 0 {
      var j := SomeBit(And(a, b));
      AndBits(a, b, j);
    }
    if j: nat :| Bit(a, j) && Bit(b, j) {
      AndBits(a, b, j);
      if And(a, b) == 0 { ZeroBits(j); }
    }
  }

  /** A cipher is usable exactly if the version is one of its own and the server has one of its ways of key exchange and
      one of its ways of authentication. */
  lemma UsableIs(cfg: Config, c: Cipher)
    ensures Usable(cfg, c) <==>
      && c.minVersion <= cfg.version && cfg.version <= c.maxVersion
      && (exists j :: Bit(c.mkey, j) && Bit(cfg.maskK, j)) && (exists j :: Bit(c.auth, j) && Bit(cfg.maskA, j))
  {
    hide Bit, And;
    MasksMeet(c.mkey, cfg.maskK);
    MasksMeet(c.auth, cfg.maskA);
  }
}
