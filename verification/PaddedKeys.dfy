/**
 * Revision keys end in a decimal number padded to 16 digits, and the store scans
 * keys in string order. This module proves when string order is number order.
 */
module PaddedKeys {

  /** JavaScript string order on strings of ASCII characters. */
  predicate LexLess(a: string, b: string) {
    if b == [] then false
    else if a == [] then true
    else if a[0] != b[0] then a[0] < b[0]
    else LexLess(a[1..], b[1..])
  }

  lemma {:induction false} LexLessTransitive(a: string, b: string, c: string)
    requires LexLess(a, b) && LexLess(b, c)
    ensures LexLess(a, c)
  {
    if a != [] && a[0] == b[0] == c[0] {
      LexLessTransitive(a[1..], b[1..], c[1..]);
    }
  }

  function Digit(d: nat): (c: char)
    requires d < 10
    ensures '0' <= c <= '9'
    ensures c as int == '0' as int + d
  {
    '0' + d as char
  }

  /** `String(n)` of a non-negative integer. */
  function Decimal(n: nat): (s: string)
    ensures |s| >= 1
  {
    if n < 10 then [Digit(n)] else Decimal(n / 10) + [Digit(n % 10)]
  }

  function Zeros(n: nat): (s: string)
    ensures |s| == n
    ensures forall i :: 0 <= i < n ==> s[i] == '0'
  {
    if n == 0 then "" else ['0'] + Zeros(n - 1)
  }

  /** `String(n).padStart(16, '0')`. */
  function Pad16(n: nat): (s: string)
    ensures |s| >= 16
  {
    var digits := Decimal(n);
    if |digits| < 16 then Zeros(16 - |digits|) + digits else digits
  }

  function Pow10(k: nat): (p: nat)
    ensures p >= 1
  {
    if k == 0 then 1 else 10 * Pow10(k - 1)
  }

  /** The k-digit decimal numeral of n, leading zeros included. */
  function Fixed(n: nat, k: nat): (s: string)
    requires n < Pow10(k)
    ensures |s| == k
  {
    if k == 0 then "" else Fixed(n / 10, k - 1) + [Digit(n % 10)]
  }

  lemma {:induction false} FixedOfDecimal(n: nat, k: nat)
    requires n < Pow10(k) && k >= 1
    ensures |Decimal(n)| <= k
    ensures Fixed(n, k) == Zeros(k - |Decimal(n)|) + Decimal(n)
  {
    if k == 1 {
      assert n < 10 * Pow10(0);
    } else if n < 10 {
      assert Pow10(k - 1) == 10 * Pow10(k - 2);
      FixedOfDecimal(0, k - 1);
      assert Zeros(k - 2) + Decimal(0) == Zeros(k - 1);
    } else {
      FixedOfDecimal(n / 10, k - 1);
      assert (Zeros(k - |Decimal(n)|) + Decimal(n / 10)) + [Digit(n % 10)]
          == Zeros(k - |Decimal(n)|) + Decimal(n);
    }
  }

  lemma {:induction false} LexLessLast(a: string, b: string, x: char, y: char)
    requires |a| == |b|
    ensures LexLess(a + [x], b + [y]) <==> LexLess(a, b) || (a == b && x < y)
  {
    if a == [] {
      assert a + [x] == [x] && b + [y] == [y];
    } else {
      assert (a + [x])[1..] == a[1..] + [x] && (b + [y])[1..] == b[1..] + [y];
      LexLessLast(a[1..], b[1..], x, y);
      assert a == [a[0]] + a[1..] && b == [b[0]] + b[1..];
    }
  }

  lemma {:induction false} FixedOrder(m: nat, n: nat, k: nat)
    requires m < Pow10(k) && n < Pow10(k)
    ensures LexLess(Fixed(m, k), Fixed(n, k)) <==> m < n
    ensures Fixed(m, k) == Fixed(n, k) <==> m == n
  {
    if k > 0 {
      FixedOrder(m / 10, n / 10, k - 1);
      var a, b := Fixed(m / 10, k - 1), Fixed(n / 10, k - 1);
      LexLessLast(a, b, Digit(m % 10), Digit(n % 10));
      assert Fixed(m, k)[..k - 1] == a && Fixed(n, k)[..k - 1] == b;
      assert Fixed(m, k)[k - 1] == Digit(m % 10) && Fixed(n, k)[k - 1] == Digit(n % 10);
    }
  }

  /** Below 10^16, which holds for every safe integer, string order is number order. */
  lemma PaddedOrder(m: nat, n: nat)
    requires m < 10000000000000000 && n < 10000000000000000
    ensures LexLess(Pad16(m), Pad16(n)) <==> m < n
    ensures Pad16(m) == Pad16(n) <==> m == n
  {
    Pow10Of16();
    FixedOfDecimal(m, 16);
    FixedOfDecimal(n, 16);
    assert Zeros(0) == "";
    FixedOrder(m, n, 16);
    PadIsFixed(m);
    PadIsFixed(n);
  }

  lemma PadIsFixed(n: nat)
    requires n < Pow10(16)
    ensures Pad16(n) == Fixed(n, 16)
  {
    FixedOfDecimal(n, 16);
    if |Decimal(n)| == 16 {
      assert Zeros(0) + Decimal(n) == Decimal(n);
    }
  }

  lemma Pow10Of16()
    ensures Pow10(16) == 10000000000000000
  {
    assert Pow10(4) == 10000;
    assert Pow10(8) == 10000 * Pow10(4);
    assert Pow10(12) == 10000 * Pow10(8);
    assert Pow10(16) == 10000 * Pow10(12);
  }

  lemma {:induction false} DecimalOfPow10(k: nat)
    ensures Decimal(Pow10(k))[0] == '1'
    ensures k > 0 ==> Pow10(k) >= 10 && Decimal(Pow10(k) - 1)[0] == '9'
  {
    if k > 0 {
      DecimalOfPow10(k - 1);
      assert Pow10(k) == 10 * Pow10(k - 1);
      assert Decimal(Pow10(k)) == Decimal(Pow10(k - 1)) + [Digit(0)];
      if k > 1 {
        var n := Pow10(k) - 1;
        assert n / 10 == Pow10(k - 1) - 1 && n % 10 == 9;
        assert Decimal(n) == Decimal(n / 10) + [Digit(9)];
      } else {
        assert Pow10(0) == 1 && Pow10(1) == 10;
      }
    }
  }

  /** The bound is exact: 10^16 sorts before its predecessor. */
  lemma PaddedOrderFailsAt16Digits()
    ensures LexLess(Pad16(10000000000000000), Pad16(9999999999999999))
  {
    Pow10Of16();
    DecimalOfPow10(16);
    FixedOfDecimal(9999999999999999, 16);
    PadIsFixed(9999999999999999);
    var d := Decimal(9999999999999999);
    assert d[0] == '9';
    if |d| < 16 {
      FixedNinesLong(16);
    }
    assert Pad16(9999999999999999) == d by { FixedNinesLong(16); }
    assert |Decimal(10000000000000000)| >= 16 by {
      assert 10000000000000000 / 10 == 1000000000000000;
      DecimalLong(16);
    }
  }

  lemma {:induction false} FixedNinesLong(k: nat)
    requires k >= 1
    ensures |Decimal(Pow10(k) - 1)| == k
  {
    if k > 1 {
      FixedNinesLong(k - 1);
      var n := Pow10(k) - 1;
      assert Pow10(k) == 10 * Pow10(k - 1) && Pow10(k - 1) == 10 * Pow10(k - 2);
      assert n / 10 == Pow10(k - 1) - 1;
    } else {
      assert Pow10(1) == 10;
    }
  }

  lemma {:induction false} DecimalLong(k: nat)
    ensures |Decimal(Pow10(k))| == k + 1
  {
    if k > 0 {
      DecimalLong(k - 1);
      assert Pow10(k) == 10 * Pow10(k - 1);
    }
  }

  // ---- Reading decimals ----

  predicate IsDigit(c: char) {
    '0' <= c <= '9'
  }

  /** Number(text) of decimal digits. */
  function DecimalValue(text: string): nat {
    if text == "" || !IsDigit(text[|text| - 1]) then 0
    else 10 * DecimalValue(text[..|text| - 1]) + (text[|text| - 1] as int - '0' as int)
  }

  /** A printed number has only digits, few of them when it is small, and is read back. */
  lemma {:induction false} DecimalIsRead(n: nat)
    ensures forall i :: 0 <= i < |Decimal(n)| ==> IsDigit(Decimal(n)[i])
    ensures DecimalValue(Decimal(n)) == n
    ensures n < 10 ==> |Decimal(n)| == 1
    ensures n < 100 ==> |Decimal(n)| <= 2
    ensures n < 1000 ==> |Decimal(n)| <= 3
  {
    if n >= 10 {
      DecimalIsRead(n / 10);
      assert Decimal(n)[..|Decimal(n)| - 1] == Decimal(n / 10);
    } else {
      assert DecimalValue("") == 0;
      assert Decimal(n)[..0] == "";
    }
  }
}
