/**
 * IEEE 754 double-precision rounding of magnitudes below 2^53: to the nearest multiple
 * of a power of two that leaves 53 significant bits, ties to even. One JavaScript
 * operation is the exact operation followed by Double.
 */
module Doubles {
  function Pow2(k: nat): (p: nat)
    ensures p >= 1
  {
    if k == 0 then 1 else 2 * Pow2(k - 1)
  }

  function Abs(x: real): (a: real)
    ensures a >= 0.0 && (a == x || a == -x)
  {
    if x < 0.0 then -x else x
  }

  /** x * 2^k. */
  function Scale(x: real, k: nat): real {
    x * Pow2(k) as real
  }

  const FINEST := 1074
  const SIGNIFICANT := 4503599627370496.0

  /** The first level from k on at which a magnitude has 53 bits before the point, or the finest. */
  function LevelFrom(a: real, k: nat): (level: nat)
    requires k <= FINEST
    ensures level <= FINEST
    decreases FINEST - k
  {
    if k == FINEST || Scale(a, k) >= SIGNIFICANT then k else LevelFrom(a, k + 1)
  }

  function Level(a: real): (level: nat)
    ensures level <= FINEST
  {
    LevelFrom(a, 0)
  }

  /** Nearest integer, ties to even. */
  function RoundEven(x: real): (n: int)
    ensures x - 0.5 <= n as real <= x + 0.5
    ensures x.Floor as real == x ==> n as real == x
  {
    var low := x.Floor;
    var rest := x - low as real;
    if rest < 0.5 || (rest == 0.5 && low % 2 == 0) then low else low + 1
  }

  /** It is the nearest, and the even one of two that are equally near. */
  lemma RoundEvenMeans(x: real, m: int)
    ensures Abs(RoundEven(x) as real - x) <= Abs(m as real - x)
    ensures m != RoundEven(x) && Abs(RoundEven(x) as real - x) == Abs(m as real - x) ==> RoundEven(x) % 2 == 0
  {
    var n := RoundEven(x);
    assert -0.5 <= n as real - x <= 0.5;
    if m != n {
      assert m as real - n as real >= 1.0 || m as real - n as real <= -1.0;
    }
  }

  function Double(x: real): real {
    var level := Level(Abs(x));
    RoundEven(Scale(x, level)) as real / Pow2(level) as real
  }

  /** A multiple of 2^-k. */
  predicate OnGrid(x: real, k: nat) {
    Scale(x, k).Floor as real == Scale(x, k)
  }

  // ---- Scaling ----

  lemma {:induction false} PowAdd(a: nat, b: nat)
    ensures Pow2(a + b) == Pow2(a) * Pow2(b)
  {
    if a > 0 {
      PowAdd(a - 1, b);
      assert Pow2(a + b) == 2 * Pow2(a + b - 1);
    }
  }

  lemma ScaleAdd(x: real, k: nat, l: nat)
    ensures Scale(x, k + l) == Scale(x, k) * Pow2(l) as real
  {
    PowAdd(k, l);
    hide Pow2;
    var p, q := Pow2(k), Pow2(l);
    assert (p * q) as real == p as real * q as real;
    assert x * (p as real * q as real) == (x * p as real) * q as real;
  }

  lemma ScaleMonotone(a: real, k: nat, l: nat)
    requires a >= 0.0 && k <= l
    ensures 0.0 <= Scale(a, k) <= Scale(a, l)
    ensures k < l ==> 2.0 * Scale(a, k) <= Scale(a, l)
  {
    ScaleAdd(a, k, l - k);
    assert k < l ==> Pow2(l - k) == 2 * Pow2(l - k - 1);
    hide Pow2;
    var p := Pow2(k);
    assert Scale(a, k) >= 0.0;
    Grows(Scale(a, k), Pow2(l - k));
    if k < l {
      Grows(Scale(a, k), Pow2(l - k - 1));
      Twice(Scale(a, k), Pow2(l - k - 1));
    }
  }

  lemma Grows(s: real, q: nat)
    requires s >= 0.0 && q >= 1
    ensures s <= s * q as real
  {
  }

  lemma Twice(s: real, q: nat)
    ensures s * (2 * q) as real == 2.0 * (s * q as real)
  {
  }

  /** A multiple of 2^-k is one of 2^-l for every finer l. */
  lemma Finer(x: real, k: nat, l: nat)
    requires k <= l && OnGrid(x, k)
    ensures OnGrid(x, l)
  {
    ScaleAdd(x, k, l - k);
    hide Scale, Pow2;
    var s, m := Scale(x, k), Pow2(l - k);
    WholeProduct(s, m);
    assert Scale(x, l) == s * m as real;
    assert (s * m as real).Floor as real == s * m as real;
  }

  lemma WholeProduct(s: real, m: nat)
    requires s.Floor as real == s
    ensures (s * m as real).Floor as real == s * m as real
  {
    var n := s.Floor;
    assert s * m as real == (n * m) as real;
  }

  lemma Quotient(n: int, k: nat)
    ensures Scale(n as real / Pow2(k) as real, k) == n as real
  {
    hide Pow2;
    assert Pow2(k) as real > 0.0;
  }

  lemma ScaleMinus(x: real, y: real, k: nat)
    ensures Scale(x - y, k) == Scale(x, k) - Scale(y, k)
    ensures Scale(x + y, k) == Scale(x, k) + Scale(y, k)
    ensures Scale(Abs(x), k) == Abs(Scale(x, k))
  {
    hide Pow2;
  }

  lemma ScaleInjective(x: real, y: real, k: nat)
    requires Scale(x, k) == Scale(y, k)
    ensures x == y
  {
    hide Pow2;
    assert Pow2(k) as real > 0.0;
    assert x == Scale(x, k) / Pow2(k) as real;
    assert y == Scale(y, k) / Pow2(k) as real;
  }

  // ---- The level ----

  lemma {:induction false} LevelFromMeans(a: real, k: nat)
    requires k <= FINEST && (k > 0 ==> Scale(a, k - 1) < SIGNIFICANT)
    ensures var level := LevelFrom(a, k);
      && (level > 0 ==> Scale(a, level - 1) < SIGNIFICANT)
      && (level < FINEST ==> Scale(a, level) >= SIGNIFICANT)
    decreases FINEST - k
  {
    hide Scale;
    if k < FINEST && Scale(a, k) < SIGNIFICANT {
      LevelFromMeans(a, k + 1);
    }
  }

  lemma LevelMeans(a: real)
    ensures var level := Level(a);
      && (level > 0 ==> Scale(a, level - 1) < SIGNIFICANT)
      && (level < FINEST ==> Scale(a, level) >= SIGNIFICANT)
  {
    hide LevelFrom, Scale;
    LevelFromMeans(a, 0);
  }

  // ---- Rounding ----

  /** The grid that a value is rounded on, and how near. */
  lemma DoubleScaled(x: real)
    ensures var level := Level(Abs(x));
      Scale(Double(x), level) == RoundEven(Scale(x, level)) as real
  {
    hide Level, RoundEven, Scale, Pow2;
    Quotient(RoundEven(Scale(x, Level(Abs(x)))), Level(Abs(x)));
  }

  /** The rounding error of a magnitude below 2^(53-k). */
  lemma DoubleNear(x: real, k: nat)
    requires 1 <= k <= FINEST && Scale(Abs(x), k - 1) < SIGNIFICANT
    ensures Scale(Abs(Double(x) - x), k) <= 0.5
  {
    hide Level, RoundEven, Scale, Pow2, Double, Abs;
    var level := Level(Abs(x));
    LevelMeans(Abs(x));
    if level < k {
      ScaleMonotone(Abs(x), level, k - 1);
      assert false;
    }
    DoubleScaled(x);
    ScaleMinus(Double(x), x, level);
    ScaleMinus(Double(x) - x, 0.0, level);
    ScaleMonotone(Abs(Double(x) - x), k, level);
  }

  /** No magnitude is rounded by more than a half. */
  lemma NearHalf(x: real)
    ensures Abs(Double(x) - x) <= 0.5
  {
    var level := Level(Abs(x));
    DoubleScaled(x);
    hide Double, Level, RoundEven, Scale;
    ScaleMinus(Double(x), x, level);
    ScaleMinus(Double(x) - x, 0.0, level);
    ScaleMonotone(Abs(Double(x) - x), 0, level);
    ScaleNone(Abs(Double(x) - x));
  }

  lemma ScaleNone(x: real)
    ensures Scale(x, 0) == x
  {
  }

  lemma DoubleNonNegative(x: real)
    requires x >= 0.0
    ensures Double(x) >= 0.0
  {
    hide RoundEven, Level, Pow2;
    assert RoundEven(Scale(x, Level(Abs(x)))) >= 0;
  }

  /** Rounding keeps a value on every grid it is on, and keeps the value unless it is large for the grid. */
  lemma DoubleOnGrid(x: real, k: nat)
    requires k <= FINEST && OnGrid(x, k)
    ensures OnGrid(Double(x), k)
    ensures Scale(Abs(x), k) < 2.0 * SIGNIFICANT ==> Double(x) == x
  {
    hide Level, RoundEven, Scale, Pow2, Double;
    var level := Level(Abs(x));
    LevelMeans(Abs(x));
    DoubleScaled(x);
    if k <= level {
      Finer(x, k, level);
      ScaleInjective(Double(x), x, level);
    } else {
      Finer(Double(x), level, k);
      ScaleMonotone(Abs(x), level, k);
    }
  }

  /** A magnitude of at least 2^(52-k) is rounded to a multiple of 2^-k. */
  lemma LargeOnGrid(x: real, k: nat)
    requires k <= FINEST && Scale(Abs(x), k) >= SIGNIFICANT
    ensures OnGrid(Double(x), k)
  {
    hide Level, RoundEven, Scale, Pow2, Double, Abs;
    var level := Level(Abs(x));
    LevelMeans(Abs(x));
    if level > k {
      ScaleMonotone(Abs(x), k, level - 1);
      assert false;
    }
    DoubleScaled(x);
    Finer(Double(x), level, k);
  }

  // ---- At the magnitudes of a clock in seconds ----

  lemma Powers()
    ensures Pow2(3) == 8 && Pow2(20) == 1048576 && Pow2(21) == 2097152 && Pow2(22) == 4194304 && Pow2(23) == 8388608
  {
    assert Pow2(3) == 8 && Pow2(4) == 16;
    PowAdd(4, 4);
    PowAdd(8, 8);
    PowAdd(4, 16);
    NextPower(20);
    NextPower(21);
    NextPower(22);
  }

  lemma PartPowers()
    ensures Pow2(51) == 2251799813685248 && Pow2(52) == 4503599627370496
  {
    Powers();
    hide Pow2;
    PowAdd(20, 20);
    PowAdd(40, 3);
    PowAdd(43, 8);
    NextPower(51);
    assert Pow2(8) == 256 by { SmallPowers(); NextPower(7); }
  }

  lemma NextPower(k: nat)
    ensures Pow2(k + 1) == 2 * Pow2(k)
  {
  }

  /** Below 2^32, 2^31 and 2^30 a value is rounded by at most 2^-22, 2^-23 and 2^-24. */
  lemma NearSeconds(x: real)
    requires Abs(x) < 4294967296.0
    ensures Abs(Double(x) - x) <= 1.0 / 4194304.0
    ensures Abs(x) < 2147483648.0 ==> Abs(Double(x) - x) <= 0.5 / 4194304.0
    ensures Abs(x) < 1073741824.0 ==> Abs(Double(x) - x) <= 0.25 / 4194304.0
  {
    Powers();
    hide Double, Pow2, Abs;
    DoubleNear(x, 21);
    if Abs(x) < 2147483648.0 { DoubleNear(x, 22); }
    if Abs(x) < 1073741824.0 { DoubleNear(x, 23); }
  }

  /** Sums of a few times are rounded by less than four microseconds. */
  lemma NearSum(x: real)
    requires Abs(x) < 68719476736.0
    ensures Abs(Double(x) - x) <= 1.0 / 262144.0
  {
    SmallPowers();
    hide Double, Pow2, Abs;
    DoubleNear(x, 17);
  }

  /** The same in milliseconds. */
  lemma NearMs(x: real)
    requires Abs(x) < 70368744177664.0
    ensures Abs(Double(x) - x) <= 1.0 / 256.0
  {
    SmallPowers();
    hide Double, Pow2, Abs;
    DoubleNear(x, 7);
  }

  lemma SmallPowers()
    ensures Pow2(6) == 64 && Pow2(7) == 128 && Pow2(16) == 65536 && Pow2(17) == 131072
  {
    assert Pow2(6) == 64;
    PowAdd(6, 6);
    PowAdd(12, 4);
    assert Pow2(4) == 16;
    NextPower(16);
  }

  /** A part of a second is rounded by at most 2^-53. */
  lemma NearPart(x: real)
    requires Abs(x) < 2.0
    ensures Abs(Double(x) - x) <= 0.5 / 4503599627370496.0
  {
    PartPowers();
    hide Double, Pow2, Abs;
    DoubleNear(x, 52);
  }

  predicate IsEighths(x: real) {
    (x * 8.0).Floor as real == x * 8.0
  }

  /** Eighths of a second are exact. */
  lemma EighthsExact(x: real)
    requires Abs(x) < 4294967296.0 && IsEighths(x)
    ensures Double(x) == x
  {
    Powers();
    hide Double, Pow2, Abs;
    DoubleOnGrid(x, 3);
  }

  /** A multiple of 2^-22. */
  predicate IsMultiple(x: real) {
    (x * 4194304.0).Floor as real == x * 4194304.0
  }

  lemma GridOfMultiple(x: real)
    ensures IsMultiple(x) <==> OnGrid(x, 22)
  {
    Powers();
    hide Pow2;
  }

  lemma MultipleStays(x: real)
    requires IsMultiple(x)
    ensures IsMultiple(Double(x))
  {
    hide IsMultiple, Double, OnGrid;
    GridOfMultiple(x);
    DoubleOnGrid(x, 22);
    GridOfMultiple(Double(x));
  }

  lemma MultipleExact(x: real)
    requires IsMultiple(x) && Abs(x) < 2147483648.0
    ensures Double(x) == x
  {
    Powers();
    hide IsMultiple, Double, OnGrid, Pow2, Abs;
    GridOfMultiple(x);
    DoubleOnGrid(x, 22);
  }

  lemma LargeIsMultiple(x: real)
    requires Abs(x) >= 1073741824.0
    ensures IsMultiple(Double(x))
  {
    Powers();
    hide IsMultiple, Double, OnGrid, Pow2, Abs;
    LargeOnGrid(x, 22);
    GridOfMultiple(Double(x));
  }

  lemma MinusWhole(x: real, n: int)
    requires IsMultiple(x)
    ensures IsMultiple(x - n as real)
  {
    var m := (x * 4194304.0).Floor;
    Combined(m, 4194304, n);
    Whole((x - n as real) * 4194304.0, m - 4194304 * n);
  }

  lemma Whole(y: real, k: int)
    requires y == k as real
    ensures y.Floor as real == y
  {
  }

  lemma Combined(m: int, p: int, n: int)
    ensures (m - p * n) as real == m as real - p as real * n as real
  {
    assert (p * n) as real == p as real * n as real;
  }
}
