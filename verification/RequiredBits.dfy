/** The two-word bitmap in which the decoder notes the required rows it has met. */
module RequiredBits {
  import opened Bits
  import opened Schema
  import opened Decoding

  const ALL_BITS: nat := 0xFFFF_FFFF

  predicate Marked(words: seq<nat>, r: nat)
    requires |words| == 2 && r < 64
  {
    Bit(words[r / 32], r % 32)
  }

  predicate MarkedUpTo(words: seq<nat>, count: nat)
    requires |words| == 2 && count <= 64
  {
    forall r :: 0 <= r < count ==> Marked(words, r)
  }

  predicate Words(words: seq<nat>) {
    |words| == 2 && words[0] < TWO_32 && words[1] < TWO_32
  }

  /** The bitmap agrees with the set of tags met, and holds nothing else. */
  ghost predicate Reflects(words: seq<nat>, fields: seq<Field>, seen: set<nat>) {
    && Words(words)
    && (forall i :: 0 <= i < |fields| && fields[i].htype.Required? && RequiredIndex(fields, i) < 64 ==>
         (Marked(words, RequiredIndex(fields, i)) <==> fields[i].tag in seen))
    && (forall r :: RequiredIndex(fields, |fields|) <= r < 64 ==> !Marked(words, r))
  }

  lemma {:induction false} RequiredOrder(fields: seq<Field>, i: nat, j: nat)
    requires i <= j <= |fields|
    ensures RequiredIndex(fields, i) <= RequiredIndex(fields, j)
    ensures i < j && fields[i].htype.Required? ==> RequiredIndex(fields, i) < RequiredIndex(fields, j)
  {
    if i < j { RequiredOrder(fields, i, j - 1); }
  }

  lemma {:induction false} RequiredRow(fields: seq<Field>, n: nat, r: nat) returns (i: nat)
    requires n <= |fields| && r < RequiredIndex(fields, n)
    ensures i < n && fields[i].htype.Required? && RequiredIndex(fields, i) == r
  {
    if r < RequiredIndex(fields, n - 1) {
      i := RequiredRow(fields, n - 1, r);
    } else {
      i := n - 1;
    }
  }

  lemma StartsEmpty(fields: seq<Field>)
    ensures Reflects([0, 0], fields, {})
  {
    forall r | 0 <= r < 64 ensures !Marked([0, 0], r) {
      ZeroBits(r % 32);
    }
  }

  /** What `fields_seen[k >> 5] |= 1 << (k & 31)` does to every bit. */
  lemma MarkOne(words: seq<nat>, k: nat, r: nat)
    requires Words(words) && k < 64 && r < 64
    ensures Shl(1, k % 32) < TWO_32
    ensures var w := words[k / 32 := Or32(words[k / 32], Shl(1, k % 32))];
      Words(w) && (Marked(w, r) <==> Marked(words, r) || r == k)
  {
    hide Or, Shl, Pow2, Bit;
    OneBit(k % 32, r % 32);
    Pow2Below(k % 32);
    OrBits(words[k / 32], Shl(1, k % 32), r % 32);
  }

  lemma Pow2Below(n: nat)
    requires n < 32
    ensures Pow2(n) < TWO_32
  {
    Pow2Monotone(n, 31);
    Pow2Values();
    assert Pow2(32) == 2 * Pow2(31);
  }

  lemma MarkReflects(words: seq<nat>, fields: seq<Field>, seen: set<nat>, i: nat)
    requires DistinctTags(fields) && Reflects(words, fields, seen) && i < |fields|
    requires fields[i].htype.Required? && RequiredIndex(fields, i) < 64
    ensures var k := RequiredIndex(fields, i);
      Shl(1, k % 32) < TWO_32
      && Reflects(words[k / 32 := Or32(words[k / 32], Shl(1, k % 32))], fields, seen + {fields[i].tag})
  {
    hide Or32, Shl, Bit, Marked;
    var k := RequiredIndex(fields, i);
    MarkOne(words, k, k);
    var w := words[k / 32 := Or32(words[k / 32], Shl(1, k % 32))];
    RequiredOrder(fields, i, |fields|);
    forall r | 0 <= r < 64 ensures Marked(w, r) <==> Marked(words, r) || r == k {
      MarkOne(words, k, r);
    }
    forall j | 0 <= j < |fields| && fields[j].htype.Required? && RequiredIndex(fields, j) < 64
      ensures Marked(w, RequiredIndex(fields, j)) <==> fields[j].tag in seen + {fields[i].tag}
    {
      if j < i {
        RequiredOrder(fields, j, i);
      } else if i < j {
        RequiredOrder(fields, i, j);
      }
    }
  }

  /** A word equals `ALL_BITS >> (32 - n)` exactly when its first n bits are set and the others are not. */
  lemma FullWord(w: nat, n: nat)
    requires w < TWO_32 && n <= 32 && forall j :: n <= j < 32 ==> !Bit(w, j)
    ensures Pow2(n) - 1 < TWO_32
    ensures w == Pow2(n) - 1 <==> forall j :: 0 <= j < n ==> Bit(w, j)
  {
    hide Pow2, Bit;
    Pow2Values();
    Pow2Monotone(n, 32);
    var m := Pow2(n) - 1;
    forall j | 0 <= j < 32 ensures Bit(m, j) <==> j < n {
      LowMask(n, j);
    }
    if forall j :: 0 <= j < n ==> Bit(w, j) {
      BitsDetermine(w, m, 32);
    }
  }

  /** The whole words and then the remaining bits. */
  method AllMarked(words: array<nat>, count: nat) returns (ok: bool)
    requires words.Length == 2 && Words(words[..]) && count <= 64
    requires forall r :: count <= r < 64 ==> !Marked(words[..], r)
    ensures ok <==> MarkedUpTo(words[..], count)
  {
    hide Pow2, Bit;
    var i := 0;
    while i < count / 32
      invariant 0 <= i <= count / 32
      invariant forall r :: 0 <= r < 32 * i ==> Marked(words[..], r)
    {
      WholeWord(words[..], i);
      if words[i] != ALL_BITS {
        return false;
      }
      i := i + 1;
    }
    if count % 32 != 0 {
      PartWord(words[..], count);
      if words[count / 32] != Pow2(count % 32) - 1 {
        return false;
      }
    }
    return true;
  }

  /** The bits of word `i` up to `n` are the marks from `32 * i` on. */
  lemma WordMarks(words: seq<nat>, i: nat, n: nat)
    requires Words(words) && i < 2 && n <= 32
    ensures (forall j :: 0 <= j < n ==> Bit(words[i], j)) <==> forall r :: 32 * i <= r < 32 * i + n ==> Marked(words, r)
  {
    hide Bit;
    if forall j :: 0 <= j < n ==> Bit(words[i], j) {
      forall r | 32 * i <= r < 32 * i + n ensures Marked(words, r) {
        assert r / 32 == i && Bit(words[i], r % 32);
      }
    }
    if forall r :: 32 * i <= r < 32 * i + n ==> Marked(words, r) {
      forall j | 0 <= j < n ensures Bit(words[i], j) {
        assert Marked(words, 32 * i + j);
      }
    }
  }

  lemma WholeWord(words: seq<nat>, i: nat)
    requires Words(words) && i < 2
    ensures words[i] == ALL_BITS <==> forall r :: 32 * i <= r < 32 * i + 32 ==> Marked(words, r)
  {
    hide Pow2, Marked;
    FullWord(words[i], 32);
    Pow2Values();
    WordMarks(words, i, 32);
  }

  lemma PartWord(words: seq<nat>, count: nat)
    requires Words(words) && count < 64 && count % 32 != 0
    requires forall r :: count <= r < 64 ==> !Marked(words, r)
    ensures words[count / 32] == Pow2(count % 32) - 1 <==>
      forall r :: count / 32 * 32 <= r < count ==> Marked(words, r)
  {
    hide Bit, Pow2;
    var i, n := count / 32, count % 32;
    forall j | n <= j < 32 ensures !Bit(words[i], j) {
      assert !Marked(words, 32 * i + j);
    }
    FullWord(words[i], n);
    hide Marked;
    WordMarks(words, i, n);
  }

  /** The bitmap check says whether each of the first 64 required rows was met. */
  lemma MarkedMeansSeen(words: seq<nat>, fields: seq<Field>, seen: set<nat>, count: nat)
    requires Reflects(words, fields, seen)
    requires count == if RequiredIndex(fields, |fields|) > 64 then 64 else RequiredIndex(fields, |fields|)
    ensures MarkedUpTo(words, count) <==> RequiredSeen(fields, seen)
  {
    hide Marked;
    if RequiredSeen(fields, seen) {
      forall r | 0 <= r < count ensures Marked(words, r) {
        var i := RequiredRow(fields, |fields|, r);
      }
    }
    if forall r :: 0 <= r < count ==> Marked(words, r) {
      forall i | 0 <= i < |fields| && fields[i].htype.Required? && RequiredIndex(fields, i) < MAX_REQUIRED_FIELDS
        ensures fields[i].tag in seen
      {
        RequiredOrder(fields, i, |fields|);
        assert Marked(words, RequiredIndex(fields, i));
      }
    }
  }
}
