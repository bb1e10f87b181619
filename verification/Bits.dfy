/** Bitwise `&` and `|` on unsigned integers, bit by bit, and what they are on masks and disjoint fields. */
module Bits {

  function And(a: nat, b: nat): nat {
    if a == 0 || b == 0 then 0 else 2 * And(a / 2, b / 2) + (a % 2) * (b % 2)
  }

  function Or(a: nat, b: nat): nat {
    if a == 0 then b
    else if b == 0 then a
    else 2 * Or(a / 2, b / 2) + (if a % 2 == 1 || b % 2 == 1 then 1 else 0)
  }

  function Xor(a: nat, b: nat): nat {
    if a == 0 then b
    else if b == 0 then a
    else 2 * Xor(a / 2, b / 2) + (if a % 2 == b % 2 then 0 else 1)
  }

  function Pow2(k: nat): (p: nat)
    ensures p >= 1
  {
    if k == 0 then 1 else 2 * Pow2(k - 1)
  }

  lemma {:induction false} Pow2Adds(a: nat, b: nat)
    ensures Pow2(a + b) == Pow2(a) * Pow2(b)
  {
    if a > 0 {
      Pow2Adds(a - 1, b);
      assert Pow2(a + b) == 2 * (Pow2(a - 1) * Pow2(b));
    }
  }

  lemma Pow2Values()
    ensures Pow2(8) == 0x100 && Pow2(16) == 0x1_0000 && Pow2(17) == 0x2_0000 && Pow2(20) == 0x10_0000
    ensures Pow2(22) == 0x40_0000 && Pow2(24) == 0x100_0000 && Pow2(28) == 0x1000_0000 && Pow2(32) == 0x1_0000_0000
  {
    assert Pow2(1) == 2 && Pow2(2) == 4 && Pow2(4) == 16;
    Pow2Adds(4, 4);
    Pow2Adds(8, 8);
    Pow2Adds(1, 16);
    Pow2Adds(4, 16);
    Pow2Adds(2, 20);
    Pow2Adds(8, 16);
    Pow2Adds(4, 24);
    Pow2Adds(16, 16);
  }

  lemma {:induction false} Pow2Grows(k: nat, w: nat)
    requires k <= w
    ensures Pow2(k) <= Pow2(w)
  {
    if k < w { Pow2Grows(k, w - 1); }
  }

  lemma MultipleIsLarge(x: nat, d: nat)
    requires x >= 1
    ensures x * d >= d
  {
    assert x * d == (x - 1) * d + d;
  }

  lemma SmallMultipleIsZero(x: int, d: int)
    requires d > 0 && -d < x * d < d
    ensures x == 0
  {
    assert (-x) * d == -(x * d);
    if x >= 1 { MultipleIsLarge(x, d); }
    if x <= -1 { MultipleIsLarge(-x, d); }
  }

  /** A mask of all ones keeps everything. */
  lemma {:induction false} AndOnes(n: nat, w: nat)
    requires n < Pow2(w)
    ensures And(n, Pow2(w) - 1) == n
  {
    if w > 0 && n > 0 {
      AndOnes(n / 2, w - 1);
    }
  }

  /** The number with its low bits cleared. */
  function Drop(n: nat, k: nat): nat {
    if k == 0 then n else 2 * Drop(n / 2, k - 1)
  }

  /** A mask of leading ones clears the low bits. */
  lemma {:induction false} AndMask(n: nat, w: nat, k: nat)
    requires k <= w && n < Pow2(w)
    ensures Pow2(k) <= Pow2(w)
    ensures And(n, Pow2(w) - Pow2(k)) == Drop(n, k)
  {
    hide And;
    Pow2Grows(k, w);
    if k == 0 {
      AndOnes(n, w);
    } else {
      Pow2Grows(k - 1, w - 1);
      AndMask(n / 2, w - 1, k - 1);
      EvenMask(n, Pow2(w - 1) - Pow2(k - 1));
    }
  }

  /** Clearing the low bits rounds down to a multiple. */
  lemma {:induction false} DropRoundsDown(n: nat, k: nat) returns (m: nat)
    ensures Drop(n, k) == m * Pow2(k)
    ensures Drop(n, k) <= n < Drop(n, k) + Pow2(k)
  {
    if k == 0 {
      m := n;
    } else {
      m := DropRoundsDown(n / 2, k - 1);
      TwiceTheProduct(m, Pow2(k - 1));
    }
  }

  lemma EvenMask(n: nat, mask: nat)
    ensures And(n, 2 * mask) == 2 * And(n / 2, mask)
  {
    assert (2 * mask) / 2 == mask && (2 * mask) % 2 == 0;
  }

  /** Fields that do not overlap are added. */
  lemma {:induction false} OrDisjoint(a: nat, n: nat, k: nat)
    requires n < Pow2(k)
    ensures Or(a * Pow2(k), n) == a * Pow2(k) + n
  {
    if k > 0 {
      OrDisjoint(a, n / 2, k - 1);
      TwiceTheProduct(a, Pow2(k - 1));
      assert Pow2(k) == 2 * Pow2(k - 1);
      hide Pow2, Or;
      OrHalves(a * Pow2(k - 1), n);
    }
  }

  lemma TwiceTheProduct(a: nat, p: nat)
    ensures a * (2 * p) == 2 * (a * p)
  {
  }

  lemma OrHalves(half: nat, n: nat)
    requires Or(half, n / 2) == half + n / 2
    ensures Or(2 * half, n) == 2 * half + n
  {
    assert (2 * half) / 2 == half && (2 * half) % 2 == 0;
  }

  /** A mask test with a prefix that fits the mask is membership in an interval. */
  lemma MaskTest(n: nat, w: nat, k: nat, q: nat)
    requires k <= w && n < Pow2(w)
    ensures Pow2(k) <= Pow2(w)
    ensures And(n, Pow2(w) - Pow2(k)) == q * Pow2(k) <==> q * Pow2(k) <= n < q * Pow2(k) + Pow2(k)
  {
    hide Pow2, And, Drop;
    AndMask(n, w, k);
    var m := DropRoundsDown(n, k);
    var size := Pow2(k);
    if q * size <= n < q * size + size {
      assert (m - q) * size == m * size - q * size;
      SmallMultipleIsZero(m - q, size);
    }
  }

  /** Accumulating differences: nothing accumulated means nothing differed. */
  lemma {:induction false} OrIsZero(a: nat, b: nat)
    ensures Or(a, b) == 0 <==> a == 0 && b == 0
  {
    if a != 0 && b != 0 {
      OrIsZero(a / 2, b / 2);
    }
  }

  lemma {:induction false} XorIsZero(a: nat, b: nat)
    ensures Xor(a, b) == 0 <==> a == b
  {
    if a != 0 && b != 0 {
      XorIsZero(a / 2, b / 2);
    }
  }
}
