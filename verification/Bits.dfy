/** Bitwise operations of C on unsigned integers, written over naturals. */
module Bits {

  type Byte = b: nat | b < 256

  const TWO_32: nat := 0x1_0000_0000
  const TWO_64: nat := 0x1_0000_0000_0000_0000

  datatype Option<+T> = None | Some(value: T)

  function Pow2(n: nat): (p: nat)
    ensures p >= 1
  {
    if n == 0 then 1 else 2 * Pow2(n - 1)
  }

  /** `x << n`, before any truncation. */
  function Shl(x: nat, n: nat): nat {
    x * Pow2(n)
  }

  /** Bitwise `a | b`. */
  function Or(a: nat, b: nat): nat {
    if a == 0 then b
    else if b == 0 then a
    else (if a % 2 == 1 || b % 2 == 1 then 1 else 0) + 2 * Or(a / 2, b / 2)
  }

  lemma {:induction false} Pow2Add(a: nat, b: nat)
    ensures Pow2(a + b) == Pow2(a) * Pow2(b)
  {
    if a > 0 {
      Pow2Add(a - 1, b);
    }
  }

  lemma {:induction false} Pow2Monotone(a: nat, b: nat)
    requires a <= b
    ensures Pow2(a) <= Pow2(b)
  {
    if a < b {
      Pow2Monotone(a, b - 1);
    }
  }

  /** On operands with no common bit, `|` is addition. */
  lemma {:induction false} OrDisjoint(a: nat, b: nat, k: nat)
    requires a < Pow2(k)
    ensures Or(a, Shl(b, k)) == a + Shl(b, k)
  {
    if a != 0 && b != 0 {
      assert k > 0;
      DoubleShl(b, k - 1);
      OrDisjoint(a / 2, b, k - 1);
    }
  }

  lemma {:induction false} OrBound(a: nat, b: nat, k: nat)
    requires a < Pow2(k) && b < Pow2(k)
    ensures Or(a, b) < Pow2(k)
  {
    if a != 0 && b != 0 {
      OrBound(a / 2, b / 2, k - 1);
    }
  }

  /** `|` on 64-bit words. */
  function Or64(a: nat, b: nat): (r: nat)
    requires a < TWO_64 && b < TWO_64
    ensures r < TWO_64 && r == Or(a, b)
  {
    hide Pow2, Or;
    Pow2Values();
    OrBound(a, b, 64);
    Or(a, b)
  }

  /** `|` on 32-bit words. */
  function Or32(a: nat, b: nat): (r: nat)
    requires a < TWO_32 && b < TWO_32
    ensures r < TWO_32 && r == Or(a, b)
  {
    hide Pow2, Or;
    Pow2Values();
    OrBound(a, b, 32);
    Or(a, b)
  }

  lemma DoubleShl(b: nat, k: nat)
    ensures Shl(b, k + 1) == 2 * Shl(b, k)
    ensures b > 0 ==> Shl(b, k) > 0
  {
    var p := Pow2(k);
    assert b * (2 * p) == 2 * (b * p);
    if b > 0 {
      MulMonotone(1, b, p);
    }
  }

  lemma Pow2Values()
    ensures Pow2(7) == 128 && Pow2(8) == 256 && Pow2(14) == 0x4000 && Pow2(21) == 0x20_0000
    ensures Pow2(28) == 0x1000_0000 && Pow2(32) == TWO_32 && Pow2(64) == TWO_64
  {
    Pow2Add(7, 7);
    Pow2Add(7, 14);
    Pow2Add(14, 14);
    Pow2Add(28, 4);
    Pow2Add(32, 32);
  }

  /** Splitting off the low base-128 digit of a shifted number. */
  lemma SplitDigit(value: nat, n: nat)
    ensures Shl(value, n) == Shl(value % 128, n) + Shl(value / 128, n + 7)
    ensures Shl(value % 128, n) + Pow2(n) <= Pow2(n + 7)
    ensures value >= 1 ==> Shl(value, n) >= Pow2(n)
  {
    var d, q, p := value % 128, value / 128, Pow2(n);
    assert Pow2(n + 7) == 128 * p by {
      Pow2Values();
      Pow2Add(7, n);
    }
    hide Pow2;
    MulDigits(d, q, p);
    assert value == d + 128 * q;
    MulMonotone(d + 1, 128, p);
    if value >= 1 {
      MulMonotone(1, value, p);
    }
  }

  lemma MulDigits(d: nat, q: nat, p: nat)
    ensures (d + 128 * q) * p == d * p + q * (128 * p)
    ensures (d + 1) * p == d * p + p
  {
  }

  lemma MulMonotone(a: nat, b: nat, p: nat)
    requires a <= b
    ensures a * p <= b * p
  {
  }

  // ----- single bits -----

  /** Bit `j` of `w`. */
  predicate Bit(w: nat, j: nat) {
    BitOfHalves(w, j)
  }

  predicate BitOfHalves(w: nat, j: nat) {
    if j == 0 then w % 2 == 1 else BitOfHalves(w / 2, j - 1)
  }

  /** Bitwise `a & b`. */
  function And(a: nat, b: nat): nat {
    if a == 0 || b == 0 then 0
    else (if a % 2 == 1 && b % 2 == 1 then 1 else 0) + 2 * And(a / 2, b / 2)
  }

  lemma {:induction false} ZeroBits(j: nat)
    ensures !Bit(0, j)
  {
    if j > 0 { ZeroBits(j - 1); }
  }

  lemma {:induction false} OrBits(a: nat, b: nat, j: nat)
    ensures Bit(Or(a, b), j) <==> Bit(a, j) || Bit(b, j)
  {
    if a == 0 || b == 0 {
      ZeroBits(j);
    } else if j > 0 {
      OrBits(a / 2, b / 2, j - 1);
    }
  }

  lemma {:induction false} AndBits(a: nat, b: nat, j: nat)
    ensures Bit(And(a, b), j) <==> Bit(a, j) && Bit(b, j)
  {
    if a == 0 || b == 0 {
      ZeroBits(j);
    } else if j > 0 {
      AndBits(a / 2, b / 2, j - 1);
    }
  }

  lemma {:induction false} ShlBits(a: nat, n: nat, j: nat)
    ensures Bit(Shl(a, n), j) <==> j >= n && Bit(a, j - n)
  {
    if n > 0 {
      DoubleShl(a, n - 1);
      if j > 0 { ShlBits(a, n - 1, j - 1); }
    }
  }

  /** `1 << n`. */
  lemma OneBit(n: nat, j: nat)
    ensures Shl(1, n) == Pow2(n) && (Bit(Pow2(n), j) <==> j == n)
  {
    ShlBits(1, n, j);
    if j > n { ZeroBits(j - n - 1); }
  }

  /** Bits from `n` on of a number below 2^n are clear. */
  lemma {:induction false} HighBits(w: nat, n: nat, j: nat)
    requires w < Pow2(n) && j >= n
    ensures !Bit(w, j)
  {
    if n == 0 {
      ZeroBits(j);
    } else {
      HighBits(w / 2, n - 1, j - 1);
    }
  }

  /** Truncation to n bits. */
  lemma {:induction false} TruncBits(w: nat, n: nat, j: nat)
    ensures Bit(w % Pow2(n), j) <==> j < n && Bit(w, j)
  {
    if n == 0 {
      ZeroBits(j);
    } else {
      HalveMod(w, Pow2(n - 1));
      if j > 0 { TruncBits(w / 2, n - 1, j - 1); }
    }
  }

  lemma HalveMod(w: nat, p: nat)
    requires p >= 1
    ensures w % (2 * p) / 2 == w / 2 % p && w % (2 * p) % 2 == w % 2
  {
    var q, r := w / 2 / p, w / 2 % p;
    assert w / 2 == q * p + r;
    var m := 2 * r + w % 2;
    assert w == q * (2 * p) + m by { assert q * (2 * p) == 2 * (q * p); }
    ModUnique(w, 2 * p, q, m);
  }

  lemma ModUnique(w: nat, d: nat, q: nat, m: nat)
    requires d >= 1 && w == q * d + m && m < d
    ensures w % d == m
  {
    var q', m' := w / d, w % d;
    assert w == q' * d + m';
    assert (q + 1) * d == q * d + d && (q' + 1) * d == q' * d + d;
    if q < q' {
      MulMonotone(q + 1, q', d);
    } else if q' < q {
      MulMonotone(q' + 1, q, d);
    }
  }

  /** Two n-bit numbers with the same bits are equal. */
  lemma {:induction false} BitsDetermine(a: nat, b: nat, n: nat)
    requires a < Pow2(n) && b < Pow2(n) && forall j :: 0 <= j < n ==> Bit(a, j) == Bit(b, j)
    ensures a == b
  {
    if n > 0 {
      assert Bit(a, 0) == Bit(b, 0);
      forall j | 0 <= j < n - 1 ensures Bit(a / 2, j) == Bit(b / 2, j) {
        assert Bit(a, j + 1) == Bit(b, j + 1);
      }
      BitsDetermine(a / 2, b / 2, n - 1);
    }
  }

  /** The complement within n bits. */
  lemma {:induction false} NotBits(w: nat, n: nat, j: nat)
    requires w < Pow2(n) && j < n
    ensures Bit(Pow2(n) - 1 - w, j) <==> !Bit(w, j)
  {
    hide Pow2, Bit;
    var p := Pow2(n - 1);
    Pow2Next(n - 1);
    NotHalves(w, p);
    BitHalves(w, j);
    BitHalves(2 * p - 1 - w, j);
    if j > 0 {
      NotBits(w / 2, n - 1, j - 1);
    }
  }

  lemma Pow2Next(n: nat)
    ensures Pow2(n + 1) == 2 * Pow2(n)
  {
  }

  lemma BitHalves(w: nat, j: nat)
    ensures Bit(w, j) <==> if j == 0 then w % 2 == 1 else Bit(w / 2, j - 1)
  {
  }

  lemma NotHalves(w: nat, p: nat)
    requires w < 2 * p
    ensures w / 2 < p && (2 * p - 1 - w) / 2 == p - 1 - w / 2 && ((2 * p - 1 - w) % 2 == 1 <==> w % 2 == 0)
  {
  }

  /** `(1 << n) - 1`. */
  lemma LowMask(n: nat, j: nat)
    ensures Bit(Pow2(n) - 1, j) <==> j < n
  {
    if j < n {
      NotBits(0, n, j);
      ZeroBits(j);
    } else {
      HighBits(Pow2(n) - 1, n, j);
    }
  }
}
