/** Octets, powers of two and the shift and or operations of C on unsigned numbers. The shifts
    are defined one bit at a time, which keeps all reasoning about them linear. */
module Bits {

  type byte = x: int | 0 <= x < 256

  function Pow2(k: nat): (p: nat)
    ensures p > 0
  {
    if k == 0 then 1 else 2 * Pow2(k - 1)
  }

  /** v << k. */
  function Shl(v: nat, k: nat): nat {
    if k == 0 then v else 2 * Shl(v, k - 1)
  }

  /** v >> k. */
  function Shr(v: nat, k: nat): nat {
    if k == 0 then v else Shr(v / 2, k - 1)
  }

  /** v << k stored in an octet. */
  function Shl8(v: byte, k: nat): byte {
    Shl(v, k) % 256
  }

  /** Bitwise or. */
  function Or(a: nat, b: nat): nat {
    if a == 0 then b
    else if b == 0 then a
    else 2 * Or(a / 2, b / 2) + (if a % 2 == 1 || b % 2 == 1 then 1 else 0)
  }

  lemma Pow2Values()
    ensures Pow2(0) == 1 && Pow2(1) == 2 && Pow2(2) == 4 && Pow2(3) == 8 && Pow2(4) == 16
    ensures Pow2(5) == 32 && Pow2(6) == 64 && Pow2(7) == 128 && Pow2(8) == 256
  {
    assert Pow2(2) == 4 && Pow2(4) == 16 && Pow2(6) == 64;
  }

  lemma {:induction false} Pow2Monotone(a: nat, b: nat)
    requires a <= b
    ensures Pow2(a) <= Pow2(b)
  {
    if a < b {
      Pow2Monotone(a, b - 1);
    }
  }

  lemma {:induction false} ShlAdd(a: nat, b: nat, k: nat)
    ensures Shl(a + b, k) == Shl(a, k) + Shl(b, k)
  {
    if k > 0 {
      ShlAdd(a, b, k - 1);
    }
  }

  lemma {:induction false} ShlShl(v: nat, a: nat, b: nat)
    ensures Shl(Shl(v, a), b) == Shl(v, a + b)
  {
    if b > 0 {
      ShlShl(v, a, b - 1);
    }
  }

  lemma {:induction false} ShrShr(v: nat, a: nat, b: nat)
    ensures Shr(Shr(v, a), b) == Shr(v, a + b)
  {
    if a > 0 {
      ShrShr(v / 2, a - 1, b);
    }
  }

  lemma {:induction false} ShlZero(k: nat)
    ensures Shl(0, k) == 0
  {
    if k > 0 {
      ShlZero(k - 1);
    }
  }

  lemma Shl7(v: nat)
    ensures Shl(v, 7) == 128 * v
  {
    assert Shl(v, 1) == 2 * v;
    assert Shl(v, 2) == 4 * v;
    assert Shl(v, 3) == 8 * v;
    assert Shl(v, 4) == 16 * v;
    assert Shl(v, 5) == 32 * v;
    assert Shl(v, 6) == 64 * v;
  }

  lemma Shl8Bits(v: nat)
    ensures Shl(v, 8) == 256 * v
  {
    Shl7(v);
  }

  /** A number below 2^k stays below when shifted with its bound. */
  lemma {:induction false} ShlBound(v: nat, k: nat, s: nat)
    requires v < Pow2(k)
    ensures Shl(v, s) < Pow2(k + s) && Shl(v, s) + Pow2(s) <= Pow2(k + s)
  {
    if s > 0 {
      ShlBound(v, k, s - 1);
    }
  }

  /** Shifting right splits off the bits below a shifted number. */
  lemma {:induction false} ShrAdd(low: nat, high: nat, k: nat, s: nat)
    requires s <= k
    ensures Shr(low + Shl(high, k), s) == Shr(low, s) + Shl(high, k - s)
  {
    if s > 0 {
      assert (low + Shl(high, k)) / 2 == low / 2 + Shl(high, k - 1);
      ShrAdd(low / 2, high, k - 1, s - 1);
    }
  }

  lemma {:induction false} ShrSmall(v: nat, k: nat)
    requires v < Pow2(k)
    ensures Shr(v, k) == 0
  {
    if k > 0 {
      ShrSmall(v / 2, k - 1);
    }
  }

  /** A number below 2^(k+m) has a high part below 2^m. */
  lemma {:induction false} ShrBound(v: nat, k: nat, m: nat)
    requires v < Pow2(k + m)
    ensures Shr(v, k) < Pow2(m)
  {
    if k > 0 {
      ShrBound(v / 2, k - 1, m);
    }
  }

  /** The k low bits of v. */
  ghost function Low(v: nat, k: nat): (r: nat)
    ensures r < Pow2(k) && v == Shl(Shr(v, k), k) + r
  {
    if k == 0 then 0
    else v % 2 + 2 * Low(v / 2, k - 1)
  }

  /** Reading the high part of a number given in two parts. */
  lemma {:induction false} SplitAt(low: nat, high: nat, k: nat)
    requires low < Pow2(k)
    ensures Shr(low + Shl(high, k), k) == high
  {
    ShrAdd(low, high, k, k);
    ShrSmall(low, k);
  }

  /** Or of numbers that share no bit position is their sum. */
  lemma {:induction false} OrDisjoint(a: nat, m: nat, k: nat)
    requires a < Pow2(k)
    ensures Or(a, Shl(m, k)) == a + Shl(m, k)
  {
    if k > 0 && a > 0 && Shl(m, k) > 0 {
      OrDisjoint(a / 2, m, k - 1);
    }
  }

  lemma {:induction false} OrSymmetric(a: nat, b: nat)
    ensures Or(a, b) == Or(b, a)
  {
    if a > 0 && b > 0 {
      OrSymmetric(a / 2, b / 2);
    }
  }

  lemma {:induction false} OrHigh(x: nat, a: nat, k: nat)
    requires a < Pow2(k)
    ensures Or(Shl(x, k), a) == Shl(x, k) + a
  {
    OrDisjoint(a, x, k);
    OrSymmetric(Shl(x, k), a);
  }

  lemma {:induction false} Shl8Small(v: byte, l: nat, k: nat)
    requires v < Pow2(l) && l + k <= 8
    ensures Shl8(v, k) == Shl(v, k) < Pow2(l + k)
  {
    ShlBound(v, l, k);
    Pow2Monotone(l + k, 8);
    Pow2Values();
  }

  /** x followed by v followed by k zeros. */
  lemma {:induction false} ShlJoin(x: nat, v: nat, l: nat, k: nat)
    ensures Shl(x, l + k) + Shl(v, k) == Shl(Shl(x, l) + v, k)
  {
    ShlShl(x, l, k);
    ShlAdd(Shl(x, l), v, k);
  }

  /** The two parts of an octet that a shift by s leaves in its own octet and carries out. */
  lemma {:induction false} ShlSplit(u: byte, s: nat)
    requires s <= 8
    ensures Shl8(u, s) == Shl(Low(u, 8 - s), s)
    ensures Shl(u, s) == 256 * Shr(u, 8 - s) + Shl8(u, s)
  {
    var q, r := Shr(u, 8 - s), Low(u, 8 - s);
    ShlAdd(Shl(q, 8 - s), r, s);
    ShlShl(q, 8 - s, s);
    Shl8Bits(q);
    ShlBound(r, 8 - s, s);
    Pow2Values();
    Mod256(q, Shl(r, s));
  }

  lemma Mod256(q: nat, r: nat)
    requires r < 256
    ensures (256 * q + r) % 256 == r
  {
  }
}
