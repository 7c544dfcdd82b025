/** The anti-replay window of a DTLS epoch (section 4.1.2.6 of RFC 6347), and the records it lets through. */
module Replay {
  import opened Bits

  /** `sizeof(bitmap->map) * 8`. */
  const WINDOW: nat := 64

  // ----- what the window stands for -----

  /** A number is refused when it has been recorded or lies 64 or more below the highest. */
  predicate Refused(recorded: set<nat>, highest: nat, n: nat) {
    n in recorded || (n <= highest && highest - n >= WINDOW)
  }

  /** Bit `i` stands for the number `i` below the highest. */
  ghost predicate BitStands(map64: nat, highest: nat, recorded: set<nat>, i: nat) {
    Bit(map64, i) <==> i <= highest && highest - i in recorded
  }

  ghost predicate Stands(map64: nat, highest: nat, recorded: set<nat>) {
    && map64 < TWO_64 && highest < TWO_64
    && (forall n | n in recorded :: n <= highest)
    && (forall i: nat :: i < WINDOW ==> BitStands(map64, highest, recorded, i))
  }

  lemma {:induction false} AndBound(a: nat, b: nat)
    ensures And(a, b) <= b
  {
    if a != 0 && b != 0 { AndBound(a / 2, b / 2); }
  }

  /** Testing one bit with a mask. */
  lemma TestBit(w: nat, i: nat)
    requires i < WINDOW
    ensures And(w, Pow2(i)) != 0 <==> Bit(w, i)
  {
    hide And, Pow2, Bit;
    var m := And(w, Pow2(i));
    if m == 0 {
      AndBits(w, Pow2(i), i);
      OneBit(i, i);
      ZeroBits(i);
    } else if !Bit(w, i) {
      forall j: nat | j < WINDOW ensures Bit(m, j) == Bit(0, j) {
        AndBits(w, Pow2(i), j);
        OneBit(i, j);
        ZeroBits(j);
      }
      AndBound(w, Pow2(i));
      SmallPower(i);
      BitsDetermine(m, 0, WINDOW);
    }
  }

  lemma SmallPower(i: nat)
    requires i < WINDOW
    ensures Pow2(i) < TWO_64 == Pow2(WINDOW)
  {
    Pow2Monotone(i, 63);
    Pow2Values();
  }

  /** Sliding the window forward. */
  lemma Slide(map64: nat, highest: nat, recorded: set<nat>, n: nat)
    requires Stands(map64, highest, recorded) && highest < n < TWO_64
    ensures var shift := n - highest;
      Stands(if shift >= WINDOW then 0 else Shl(map64, shift) % TWO_64, n, recorded)
  {
    hide Bit, Shl, Pow2;
    var shift := n - highest;
    Pow2Values();
    var m := if shift >= WINDOW then 0 else Shl(map64, shift) % TWO_64;
    forall i: nat | i < WINDOW ensures BitStands(m, n, recorded, i) {
      if shift >= WINDOW {
        ZeroBits(i);
      } else {
        TruncBits(Shl(map64, shift), WINDOW, i);
        ShlBits(map64, shift, i);
        if i >= shift { assert BitStands(map64, highest, recorded, i - shift); }
      }
    }
  }

  /** Recording a number inside the window. */
  lemma SetBit(map64: nat, highest: nat, recorded: set<nat>, n: nat)
    requires Stands(map64, highest, recorded) && n <= highest && highest - n < WINDOW
    ensures Pow2(highest - n) < TWO_64
    ensures Stands(Or64(map64, Pow2(highest - n)), highest, recorded + {n})
  {
    hide Bit, Or, Pow2;
    var idx := highest - n;
    SmallPower(idx);
    forall i: nat | i < WINDOW ensures BitStands(Or64(map64, Pow2(idx)), highest, recorded + {n}, i) {
      OrBits(map64, Pow2(idx), i);
      OneBit(idx, i);
      assert BitStands(map64, highest, recorded, i);
    }
  }

  /** A number below the window leaves no trace. */
  lemma TooOld(map64: nat, highest: nat, recorded: set<nat>, n: nat)
    requires Stands(map64, highest, recorded) && n <= highest && highest - n >= WINDOW
    ensures Stands(map64, highest, recorded + {n})
  {
    hide Bit;
    forall i: nat | i < WINDOW ensures BitStands(map64, highest, recorded + {n}, i) {
      assert BitStands(map64, highest, recorded, i);
    }
  }

  /** `DTLS1_BITMAP`. */
  class Bitmap {
    var map64: nat
    var maxSeqNum: nat
    ghost var recorded: set<nat>

    ghost predicate Valid()
      reads this
    {
      Stands(map64, maxSeqNum, recorded)
    }

    constructor ()
      ensures Valid() && recorded == {} && maxSeqNum == 0
    {
      map64, maxSeqNum, recorded := 0, 0, {};
      new;
      Empty();
    }

    /** `dtls1_bitmap_should_discard`. */
    method ShouldDiscard(n: nat) returns (discard: bool)
      requires Valid() && n < TWO_64
      ensures discard <==> Refused(recorded, maxSeqNum, n)
    {
      hide Stands;
      Highest();
      if n > maxSeqNum {
        return false;
      }
      var idx := maxSeqNum - n;
      if idx >= WINDOW {
        return true;
      }
      TestBit(map64, idx);
      Window(idx);
      return And(map64, Shl(1, idx)) != 0;
    }

    lemma Highest()
      requires Valid()
      ensures forall n | n in recorded :: n <= maxSeqNum
    {
    }

    lemma Window(idx: nat)
      requires Valid() && idx < WINDOW && idx <= maxSeqNum
      ensures Bit(map64, idx) <==> maxSeqNum - idx in recorded
    {
      assert BitStands(map64, maxSeqNum, recorded, idx);
    }

    lemma Empty()
      requires map64 == 0 && maxSeqNum == 0 && recorded == {}
      ensures Valid()
    {
      hide Bit;
      forall i: nat | i < WINDOW ensures BitStands(0, 0, {}, i) { ZeroBits(i); }
    }

    /** `dtls1_bitmap_record`. */
    method Record(n: nat)
      requires Valid() && n < TWO_64
      modifies this
      ensures Valid() && recorded == old(recorded) + {n}
      ensures maxSeqNum == if n > old(maxSeqNum) then n else old(maxSeqNum)
    {
      hide Stands, Or64, Shl;
      if n > maxSeqNum {
        Slide(map64, maxSeqNum, recorded, n);
        var shift := n - maxSeqNum;
        if shift >= WINDOW {
          map64 := 0;
        } else {
          map64 := Shl(map64, shift) % TWO_64;
        }
        maxSeqNum := n;
      }
      var idx := maxSeqNum - n;
      if idx < WINDOW {
        SetBit(map64, maxSeqNum, recorded, n);
        OneBit(idx, 0);
        InRange();
        map64 := Or64(map64, Shl(1, idx));
      } else {
        TooOld(map64, maxSeqNum, recorded, n);
      }
      recorded := recorded + {n};
    }

    lemma InRange()
      requires Valid()
      ensures map64 < TWO_64
    {
    }

    /** Zeroing the bitmap at a change of epoch. */
    method Reset()
      modifies this
      ensures Valid() && recorded == {} && maxSeqNum == 0
    {
      map64, maxSeqNum, recorded := 0, 0, {};
      Empty();
    }
  }
}
