/**
 * Comparing message imprints as bytes (src/audit/constant-time.ts:7-17,
 * src/audit/timestamp-verification.ts:19-39).
 */
module ImprintBytes {
  import opened Results
  import opened Bits

  type Byte = b: int | 0 <= b < 256

  // ---- The comparison ----

  /** A byte, or zero past the end. */
  function ByteAt(bytes: seq<Byte>, i: nat): Byte {
    if i < |bytes| then bytes[i] else 0
  }

  /** Lengths that are equal as 32-bit integers, and bytes that are equal when padded with zeros. */
  ghost predicate PaddedEqual(left: seq<Byte>, right: seq<Byte>) {
    && |left| % 0x1_0000_0000 == |right| % 0x1_0000_0000
    && forall i: nat :: i < |left| || i < |right| ==> ByteAt(left, i) == ByteAt(right, i)
  }

  /** constantTimeBytesEqual: no early exit, differences accumulate. */
  method ConstantTimeBytesEqual(left: array<Byte>, right: array<Byte>) returns (equal: bool)
    ensures equal <==> PaddedEqual(left[..], right[..])
  {
    hide Or, Xor;
    var length := if left.Length < right.Length then right.Length else left.Length;
    var diff: nat := Xor(left.Length % 0x1_0000_0000, right.Length % 0x1_0000_0000);
    XorIsZero(left.Length % 0x1_0000_0000, right.Length % 0x1_0000_0000);
    for i := 0 to length
      invariant diff == 0 <==>
        && left.Length % 0x1_0000_0000 == right.Length % 0x1_0000_0000
        && forall k: nat :: k < i ==> ByteAt(left[..], k) == ByteAt(right[..], k)
    {
      var a: nat := if i < left.Length then left[i] else 0;
      var b: nat := if i < right.Length then right[i] else 0;
      XorIsZero(a, b);
      OrIsZero(diff, Xor(a, b));
      diff := Or(diff, Xor(a, b));
      assert a == ByteAt(left[..], i) && b == ByteAt(right[..], i);
    }
    equal := diff == 0;
  }

  const WRAP := 0x1_0000_0000

  function ZeroBytes(n: nat): seq<Byte> {
    seq(n, _ => 0)
  }

  /**
   * What the comparison decides, for all lengths: the longer array is the shorter one
   * followed by zeros, a multiple of four gigabytes of them.
   */
  lemma PaddedEqualIff(left: seq<Byte>, right: seq<Byte>)
    requires |left| <= |right|
    ensures PaddedEqual(left, right) <==>
      (|right| - |left|) % WRAP == 0 && right == left + ZeroBytes(|right| - |left|)
  {
    var padded := left + ZeroBytes(|right| - |left|);
    SameRemainder(|left|, |right|);
    assert forall i: nat :: i < |right| ==> padded[i] == ByteAt(left, i);
    if PaddedEqual(left, right) {
      forall i | 0 <= i < |right| ensures right[i] == padded[i] {
        assert ByteAt(left, i) == ByteAt(right, i);
      }
      assert right == padded;
    }
  }

  lemma SameRemainder(m: nat, n: nat)
    requires m <= n
    ensures m % WRAP == n % WRAP <==> (n - m) % WRAP == 0
  {
    var p, q := m / WRAP, n / WRAP;
    assert m == WRAP * p + m % WRAP && n == WRAP * q + n % WRAP;
    if m % WRAP == n % WRAP {
      Multiple(q - p);
    } else if (n - m) % WRAP == 0 {
      var k := (n - m) / WRAP;
      assert n == WRAP * (p + k) + m % WRAP;
      RemainderOf(p + k, m % WRAP);
    }
  }

  lemma Multiple(k: int)
    ensures (WRAP * k) % WRAP == 0
  {
  }

  lemma RemainderOf(k: int, r: int)
    requires 0 <= r < WRAP
    ensures (WRAP * k + r) % WRAP == r
  {
  }

  /** So the comparison is equality unless the lengths differ by such a multiple; below four gigabytes it is. */
  lemma PaddedEqualIsEqual(left: seq<Byte>, right: seq<Byte>)
    requires |left| % WRAP == |right| % WRAP ==> |left| == |right|
    ensures PaddedEqual(left, right) <==> left == right
  {
    if |left| == |right| {
      PaddedEqualIff(left, right);
      assert left + ZeroBytes(0) == left;
    }
  }

  /** The empty array and four gigabytes of zeros compare equal. */
  lemma EmptyEqualsZeros()
    ensures PaddedEqual([], ZeroBytes(WRAP)) && [] != ZeroBytes(WRAP)
  {
    hide ZeroBytes;
    ZeroLength(WRAP);
    PaddedEqualIff([], ZeroBytes(WRAP));
    assert [] + ZeroBytes(WRAP) == ZeroBytes(WRAP);
  }

  lemma ZeroLength(n: nat)
    ensures |ZeroBytes(n)| == n
  {
  }

  // ---- Hexadecimal digests ----

  predicate IsHex(c: char) {
    '0' <= c <= '9' || 'a' <= c <= 'f' || 'A' <= c <= 'F'
  }

  function Nibble(c: char): (d: nat)
    ensures d < 16
  {
    if '0' <= c <= '9' then c as int - '0' as int
    else if 'a' <= c <= 'f' then c as int - 'a' as int + 10
    else if 'A' <= c <= 'F' then c as int - 'A' as int + 10
    else 0
  }

  predicate IsHexDigest(hex: string) {
    |hex| % 2 == 0 && hex != "" && forall i | 0 <= i < |hex| :: IsHex(hex[i])
  }

  function ByteOf(high: char, low: char): Byte {
    Nibble(high) * 16 + Nibble(low)
  }

  /** The bytes of a digest, two digits each. */
  function HexBytes(hex: string): (bytes: seq<Byte>)
    ensures |bytes| == |hex| / 2
    ensures forall k :: 0 <= k < |hex| / 2 ==> bytes[k] == ByteOf(hex[2 * k], hex[2 * k + 1])
  {
    seq(|hex| / 2, k requires 0 <= k < |hex| / 2 => ByteOf(hex[2 * k], hex[2 * k + 1]))
  }

  datatype HexError = OddLength | Invalid

  /** canonicalDigestToUint8Array. */
  method CanonicalDigestToUint8Array(hex: string) returns (result: Result<array<Byte>, HexError>)
    ensures result.Ok? <==> IsHexDigest(hex)
    ensures result.Ok? ==> fresh(result.value) && result.value[..] == HexBytes(hex)
    ensures result == Err(OddLength) <==> |hex| % 2 != 0
  {
    if |hex| % 2 != 0 { return Err(OddLength); }
    if hex == "" || exists i | 0 <= i < |hex| :: !IsHex(hex[i]) { return Err(Invalid); }
    hide Nibble, IsHex;
    var bytes := new Byte[|hex| / 2];
    var i := 0;
    while i < |hex|
      invariant i % 2 == 0 && i <= |hex| && bytes.Length == |hex| / 2
      invariant forall k :: 0 <= k < i / 2 ==> bytes[k] == ByteOf(hex[2 * k], hex[2 * k + 1])
    {
      bytes[i / 2] := ByteOf(hex[i], hex[i + 1]);
      i := i + 2;
    }
    result := Ok(bytes);
  }

  function LowerHex(hex: string): (r: string)
    ensures |r| == |hex|
    ensures forall i :: 0 <= i < |hex| ==> r[i] == if 'A' <= hex[i] <= 'F' then hex[i] + 32 as char else hex[i]
  {
    seq(|hex|, i requires 0 <= i < |hex| => if 'A' <= hex[i] <= 'F' then hex[i] + 32 as char else hex[i])
  }

  /** Two digits have the same value exactly when they are the same up to letter case. */
  lemma SameNibble(c: char, d: char)
    requires IsHex(c) && IsHex(d)
    ensures Nibble(c) == Nibble(d) <==>
      (if 'A' <= c <= 'F' then c + 32 as char else c) == (if 'A' <= d <= 'F' then d + 32 as char else d)
  {
  }

  lemma SameByte(hex: string, other: string, k: nat)
    requires 2 * k + 1 < |hex| && 2 * k + 1 < |other|
    requires IsHex(hex[2 * k]) && IsHex(hex[2 * k + 1]) && IsHex(other[2 * k]) && IsHex(other[2 * k + 1])
    ensures ByteOf(hex[2 * k], hex[2 * k + 1]) == ByteOf(other[2 * k], other[2 * k + 1]) <==>
      LowerHex(hex)[2 * k] == LowerHex(other)[2 * k] && LowerHex(hex)[2 * k + 1] == LowerHex(other)[2 * k + 1]
  {
    hide Nibble, IsHex;
    SameNibble(hex[2 * k], other[2 * k]);
    SameNibble(hex[2 * k + 1], other[2 * k + 1]);
  }

  /** Two digests denote the same bytes exactly when they are the same text up to letter case. */
  lemma ImprintsEqualIff(hex: string, other: string)
    requires IsHexDigest(hex) && IsHexDigest(other)
    ensures HexBytes(hex) == HexBytes(other) <==> LowerHex(hex) == LowerHex(other)
  {
    hide ByteOf, IsHex;
    if |hex| == |other| {
      forall k: nat | k < |hex| / 2
        ensures HexBytes(hex)[k] == HexBytes(other)[k] <==>
          LowerHex(hex)[2 * k] == LowerHex(other)[2 * k] && LowerHex(hex)[2 * k + 1] == LowerHex(other)[2 * k + 1]
      {
        SameByte(hex, other, k);
      }
      if HexBytes(hex) == HexBytes(other) {
        forall i | 0 <= i < |hex| ensures LowerHex(hex)[i] == LowerHex(other)[i] {
          assert HexBytes(hex)[i / 2] == HexBytes(other)[i / 2];
        }
      }
    }
  }

  // ---- Printing ----

  const DIGITS := "0123456789abcdef"
  const UPPER := "0123456789ABCDEF"

  /** The digits, in either case, are these sixteen with these values. */
  lemma DigitIff(c: char)
    ensures IsHex(c) <==> c in DIGITS || c in UPPER
    ensures forall d :: 0 <= d < 16 ==> (DIGITS[d] == c || UPPER[d] == c ==> Nibble(c) == d)
  {
    if '0' <= c <= '9' { assert DIGITS[c as int - '0' as int] == c; }
    if 'a' <= c <= 'f' { assert DIGITS[c as int - 'a' as int + 10] == c; }
    if 'A' <= c <= 'F' { assert UPPER[c as int - 'A' as int + 10] == c; }
  }

  function HexDigit(d: nat): char
    requires d < 16
  {
    DIGITS[d]
  }

  function Printed(bytes: seq<Byte>): (hex: string)
    ensures |hex| == 2 * |bytes|
    ensures forall k :: 0 <= k < |bytes| ==> hex[2 * k] == HexDigit(bytes[k] / 16) && hex[2 * k + 1] == HexDigit(bytes[k] % 16)
  {
    if bytes == [] then ""
    else Printed(bytes[..|bytes| - 1]) + [HexDigit(bytes[|bytes| - 1] / 16), HexDigit(bytes[|bytes| - 1] % 16)]
  }

  /** Bytes printed as hexadecimal digits are a digest, unless there are none, and are read back. */
  lemma PrintedIsRead(bytes: seq<Byte>)
    ensures IsHexDigest(Printed(bytes)) <==> bytes != []
    ensures HexBytes(Printed(bytes)) == bytes
  {
    var hex := Printed(bytes);
    forall i | 0 <= i < |hex| ensures IsHex(hex[i]) {
      var k := i / 2;
      assert i == 2 * k || i == 2 * k + 1;
      DigitIff(hex[i]);
    }
    forall k | 0 <= k < |bytes| ensures HexBytes(hex)[k] == bytes[k] {
      DigitIff(hex[2 * k]);
      DigitIff(hex[2 * k + 1]);
    }
  }

  /** A text is a digest exactly when it is, in some letter case, what some bytes are printed as. */
  lemma HexDigestIff(hex: string)
    ensures IsHexDigest(hex) <==> exists bytes: seq<Byte> :: bytes != [] && LowerHex(hex) == Printed(bytes)
  {
    if IsHexDigest(hex) {
      DigestIsPrinted(hex);
      assert HexBytes(hex) != [];
    }
    hide LowerHex, Printed, HexBytes;
    if bytes: seq<Byte> :| bytes != [] && LowerHex(hex) == Printed(bytes) {
      PrintedIsRead(bytes);
      LowerKeepsDigits(hex);
    }
  }

  lemma DigestIsPrinted(hex: string)
    requires IsHexDigest(hex)
    ensures LowerHex(hex) == Printed(HexBytes(hex))
  {
    var bytes := HexBytes(hex);
    hide Nibble, LowerHex, Printed, HexBytes, ByteOf;
    forall i | 0 <= i < |hex| ensures LowerHex(hex)[i] == Printed(bytes)[i] {
      PairIsPrinted(hex, i / 2);
      assert i == 2 * (i / 2) || i == 2 * (i / 2) + 1;
    }
  }

  lemma PairIsPrinted(hex: string, k: nat)
    requires IsHexDigest(hex) && 2 * k + 1 < |hex|
    ensures LowerHex(hex)[2 * k] == Printed(HexBytes(hex))[2 * k]
    ensures LowerHex(hex)[2 * k + 1] == Printed(HexBytes(hex))[2 * k + 1]
  {
    var high, low := hex[2 * k], hex[2 * k + 1];
    assert IsHex(high) && IsHex(low);
    LowerDigit(high);
    LowerDigit(low);
    var b: int := HexBytes(hex)[k];
    assert b == ByteOf(high, low);
    Digits(b, high, low);
    hide IsHex, Nibble, LowerHex, Printed, HexBytes, HexDigit, IsHexDigest, ByteOf;
    assert Printed(HexBytes(hex))[2 * k] == HexDigit(b / 16) && Printed(HexBytes(hex))[2 * k + 1] == HexDigit(b % 16);
  }

  lemma Digits(b: int, high: char, low: char)
    requires b == ByteOf(high, low)
    ensures b / 16 == Nibble(high) && b % 16 == Nibble(low)
  {
    hide Nibble;
  }

  lemma LowerKeepsDigits(hex: string)
    ensures IsHexDigest(LowerHex(hex)) <==> IsHexDigest(hex)
  {
    forall i | 0 <= i < |hex| ensures IsHex(LowerHex(hex)[i]) <==> IsHex(hex[i]) {
    }
  }

  lemma LowerDigit(c: char)
    requires IsHex(c)
    ensures HexDigit(Nibble(c)) == if 'A' <= c <= 'F' then c + 32 as char else c
  {
  }
}
