/** Bitwise operations on natural numbers, and what the masks of the memory code compute. */
module Bits {

  function Pow2(k: nat): (p: nat)
    ensures p > 0
  {
    if k == 0 then 1 else 2 * Pow2(k - 1)
  }

  function Bit(b: bool): nat { if b then 1 else 0 }

  function And(x: nat, y: nat): nat {
    if x == 0 || y == 0 then 0
    else Bit(x % 2 == 1 && y % 2 == 1) + 2 * And(x / 2, y / 2)
  }

  function Or(x: nat, y: nat): nat {
    if x == 0 then y
    else if y == 0 then x
    else Bit(x % 2 == 1 || y % 2 == 1) + 2 * Or(x / 2, y / 2)
  }

  lemma AndStep(x: nat, y: nat)
    ensures And(x, y) % 2 == Bit(x % 2 == 1 && y % 2 == 1)
    ensures And(x, y) / 2 == And(x / 2, y / 2)
  {
  }

  lemma OrStep(x: nat, y: nat)
    ensures Or(x, y) % 2 == Bit(x % 2 == 1 || y % 2 == 1)
    ensures Or(x, y) / 2 == Or(x / 2, y / 2)
  {
  }

  /** The number whose low k bits are those of lo and whose other bits are hi. */
  function Join(k: nat, lo: nat, hi: nat): nat {
    if k == 0 then hi else lo % 2 + 2 * Join(k - 1, lo / 2, hi)
  }

  /** A number without its low k bits. */
  function Drop(k: nat, x: nat): nat {
    if k == 0 then x else Drop(k - 1, x / 2)
  }

  /** And works on low and high bits separately. */
  lemma {:induction false} AndJoin(k: nat, a: nat, b: nat, c: nat, d: nat)
    ensures And(Join(k, a, b), Join(k, c, d)) == Join(k, And(a, c), And(b, d))
  {
    if k > 0 {
      AndJoin(k - 1, a / 2, b, c / 2, d);
      AndStep(a, c);
      AndStep(Join(k, a, b), Join(k, c, d));
    }
  }

  /** And so does Or. */
  lemma {:induction false} OrJoin(k: nat, a: nat, b: nat, c: nat, d: nat)
    ensures Or(Join(k, a, b), Join(k, c, d)) == Join(k, Or(a, c), Or(b, d))
  {
    if k > 0 {
      OrJoin(k - 1, a / 2, b, c / 2, d);
      OrStep(a, c);
      OrStep(Join(k, a, b), Join(k, c, d));
    }
  }

  lemma {:induction false} JoinValue(k: nat, lo: nat, hi: nat)
    requires lo < Pow2(k)
    ensures Join(k, lo, hi) == lo + Pow2(k) * hi
  {
    if k > 0 {
      JoinValue(k - 1, lo / 2, hi);
      Double(Pow2(k - 1), hi);
    }
  }

  lemma {:induction false} JoinDrop(k: nat, x: nat)
    ensures Join(k, x, Drop(k, x)) == x
  {
    if k > 0 {
      JoinDrop(k - 1, x / 2);
    }
  }

  lemma Double(p: nat, d: nat)
    ensures (2 * p) * d == 2 * (p * d)
  {
  }

  lemma {:induction false} DropRounds(k: nat, x: nat)
    ensures Pow2(k) * Drop(k, x) <= x < Pow2(k) * Drop(k, x) + Pow2(k)
  {
    if k > 0 {
      DropRounds(k - 1, x / 2);
      Double(Pow2(k - 1), Drop(k, x));
    } else {
      assert Pow2(0) * Drop(0, x) == x;
    }
  }

  lemma {:induction false} DropBound(k: nat, n: nat, x: nat)
    requires x < Pow2(k + n)
    ensures Drop(k, x) < Pow2(n)
  {
    if k > 0 {
      DropBound(k - 1, n, x / 2);
    }
  }

  /** Anding with k ones keeps a number below 2^k. */
  lemma {:induction false} AndOnes(k: nat, x: nat)
    requires x < Pow2(k)
    ensures And(x, Pow2(k) - 1) == x
  {
    if k > 0 {
      AndOnes(k - 1, x / 2);
      AndOddStep(x, Pow2(k - 1) - 1);
    }
  }

  lemma AndOddStep(x: nat, m: nat)
    requires And(x / 2, m) == x / 2
    ensures And(x, 2 * m + 1) == x
  {
    AndStep(x, 2 * m + 1);
    assert (2 * m + 1) / 2 == m && (2 * m + 1) % 2 == 1;
  }

  lemma {:induction false} Pow2Add(j: nat, k: nat)
    ensures Pow2(j + k) == Pow2(j) * Pow2(k)
  {
    if j > 0 {
      Pow2Add(j - 1, k);
      assert Pow2(j) * Pow2(k) == 2 * (Pow2(j - 1) * Pow2(k));
    }
  }

  lemma {:induction false} Pow2Monotone(j: nat, k: nat)
    requires j <= k
    ensures Pow2(j) <= Pow2(k)
  {
    if j < k {
      Pow2Monotone(j, k - 1);
    }
  }

  /** The low k bits cleared. */
  function HighOnes(k: nat): nat
    requires k <= 64
  {
    Pow2Monotone(k, 64);
    Pow2(64) - Pow2(k)
  }

  lemma HighOnesJoin(k: nat, n: nat)
    requires k + n == 64
    ensures HighOnes(k) == Join(k, 0, Pow2(n) - 1)
  {
    JoinOnes(k, n);
  }

  lemma JoinOnes(k: nat, n: nat)
    ensures Join(k, 0, Pow2(n) - 1) == Pow2(k + n) - Pow2(k)
  {
    Pow2Add(k, n);
    JoinValue(k, 0, Pow2(n) - 1);
    OneLess(Pow2(k), Pow2(n));
  }

  lemma OneLess(p: nat, q: nat)
    requires q > 0
    ensures p * (q - 1) == p * q - p
  {
  }

  /** Clearing the low k bits of a 64-bit value rounds it down to a multiple of 2^k. */
  lemma ClearLow(k: nat, x: nat)
    requires k <= 64 && x < Pow2(64)
    ensures And(x, HighOnes(k)) == Pow2(k) * Drop(k, x)
  {
    var n := 64 - k;
    HighOnesJoin(k, n);
    JoinDrop(k, x);
    AndJoin(k, x, Drop(k, x), 0, Pow2(n) - 1);
    DropBound(k, n, x);
    AndOnes(n, Drop(k, x));
    JoinValue(k, 0, Drop(k, x));
  }

  // ---- Utility::Math -----------------------------------------------------------------

  /** ~(2^k - 1) in 64 bits is HighOnes(k). */
  function AlignUp(value: nat, k: nat): nat
    requires k <= 64
  {
    var v := value + Pow2(k) - 1;
    And(if v < Pow2(64) then v else v - Pow2(64), HighOnes(k))
  }

  function AlignDown(value: nat, k: nat): nat
    requires k <= 64
  {
    And(value, HighOnes(k))
  }

  ghost predicate Multiple(v: nat, k: nat) {
    exists q: nat :: v == Pow2(k) * q
  }

  /** For the alignment 2^k, AlignDown gives the largest multiple not above the value. */
  lemma AlignDownRounds(value: nat, k: nat)
    requires k <= 64 && value < Pow2(64)
    ensures Multiple(AlignDown(value, k), k)
    ensures AlignDown(value, k) <= value < AlignDown(value, k) + Pow2(k)
  {
    ClearLow(k, value);
    DropRounds(k, value);
  }

  /** And AlignUp the smallest multiple not below it, unless the addition wraps. */
  lemma AlignUpRounds(value: nat, k: nat)
    requires k <= 64 && value + Pow2(k) - 1 < Pow2(64)
    ensures Multiple(AlignUp(value, k), k)
    ensures value <= AlignUp(value, k) < value + Pow2(k)
  {
    var v := value + Pow2(k) - 1;
    ClearLow(k, v);
    DropRounds(k, v);
    var rounded := Pow2(k) * Drop(k, v);
    assert AlignUp(value, k) == rounded;
    assert rounded <= v < rounded + Pow2(k);
  }
}
