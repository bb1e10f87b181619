/** IPv4 text and the private blocks (src/adapters/ip-validation.ts:10-50). */
module Ipv4 {
  import opened Results
  import opened Strings
  import opened Bits
  import opened PaddedKeys

  // ---- Blocks ----

  datatype Range = Range(prefix: nat, mask: nat)

  const PrivateRanges: seq<Range> := [
    Range(0x7f000000, 0xff000000),
    Range(0x0a000000, 0xff000000),
    Range(0xac100000, 0xfff00000),
    Range(0xc0a80000, 0xffff0000),
    Range(0xa9fe0000, 0xffff0000),
    Range(0x00000000, 0xff000000),
    Range(0x64400000, 0xffc00000),
    Range(0xc0000200, 0xffffff00),
    Range(0xc6336400, 0xffffff00),
    Range(0xcb007100, 0xffffff00),
    Range(0xc6120000, 0xfffe0000),
    Range(0xe0000000, 0xf0000000),
    Range(0xf0000000, 0xf0000000),
    Range(0xffffffff, 0xffffffff)
  ]

  /** isPrivateIPv4 on an unsigned 32-bit address. */
  predicate IsPrivateIPv4(ip: nat) {
    exists i | 0 <= i < |PrivateRanges| :: And(ip, PrivateRanges[i].mask) == PrivateRanges[i].prefix
  }

  /** A block a.b.c.d/n by its first octets and its prefix length. */
  datatype Block = Block(a: nat, b: nat, c: nat, d: nat, length: nat)

  const PrivateBlocks: seq<Block> := [
    Block(127, 0, 0, 0, 8),
    Block(10, 0, 0, 0, 8),
    Block(172, 16, 0, 0, 12),
    Block(192, 168, 0, 0, 16),
    Block(169, 254, 0, 0, 16),
    Block(0, 0, 0, 0, 8),
    Block(100, 64, 0, 0, 10),
    Block(192, 0, 2, 0, 24),
    Block(198, 51, 100, 0, 24),
    Block(203, 0, 113, 0, 24),
    Block(198, 18, 0, 0, 15),
    Block(224, 0, 0, 0, 4),
    Block(240, 0, 0, 0, 4),
    Block(255, 255, 255, 255, 32)
  ]

  function Quad(a: nat, b: nat, c: nat, d: nat): nat {
    a * 0x100_0000 + b * 0x1_0000 + c * 0x100 + d
  }

  /** The addresses that share the block's first `length` bits. */
  predicate InBlock(block: Block, ip: nat)
    requires block.length <= 32
  {
    var first := Quad(block.a, block.b, block.c, block.d);
    first <= ip < first + Pow2(32 - block.length)
  }

  predicate InPrivateBlock(ip: nat) {
    exists i | 0 <= i < |PrivateBlocks| :: PrivateBlocks[i].length <= 32 && InBlock(PrivateBlocks[i], ip)
  }

  /** Each listed prefix and mask is the block it is meant to be. */
  lemma RangeIsBlock(i: nat) returns (q: nat)
    requires i < |PrivateRanges|
    ensures |PrivateBlocks| == |PrivateRanges| && PrivateBlocks[i].length <= 32
    ensures var k := 32 - PrivateBlocks[i].length;
      && Pow2(k) <= Pow2(32) && PrivateRanges[i].mask == Pow2(32) - Pow2(k)
      && PrivateRanges[i].prefix == q * Pow2(k)
      && PrivateRanges[i].prefix == Quad(PrivateBlocks[i].a, PrivateBlocks[i].b, PrivateBlocks[i].c, PrivateBlocks[i].d)
  {
    Pow2Values();
    assert Pow2(0) == 1;
    var k := 32 - PrivateBlocks[i].length;
    q := PrivateRanges[i].prefix / Pow2(k);
    hide Pow2;
  }

  /** The mask test is membership in a listed block, as a numeric interval. */
  lemma PrivateIffInBlock(ip: nat)
    requires ip < Pow2(32)
    ensures IsPrivateIPv4(ip) <==> InPrivateBlock(ip)
  {
    hide Pow2, And;
    forall i | 0 <= i < |PrivateRanges|
      ensures And(ip, PrivateRanges[i].mask) == PrivateRanges[i].prefix <==>
        PrivateBlocks[i].length <= 32 && InBlock(PrivateBlocks[i], ip)
    {
      var q := RangeIsBlock(i);
      MaskTest(ip, 32, 32 - PrivateBlocks[i].length, q);
    }
    var q := RangeIsBlock(0);
    hide PrivateRanges, PrivateBlocks, InBlock;
  }

  // ---- Text ----

  /** One to three decimal digits. */
  predicate IsDecimal(part: string) {
    1 <= |part| <= 3 && forall i | 0 <= i < |part| :: IsDigit(part[i])
  }

  /** Number of a part in range; leading zeros are decimal. */
  function Octet(part: string): Option<nat> {
    if IsDecimal(part) && DecimalValue(part) <= 255 then Some(DecimalValue(part)) else None
  }

  /** Four octets, the first the most significant. */
  function ParsedIPv4(ip: string): Option<nat> {
    var parts := Split(ip, '.');
    if |parts| != 4 then None
    else
      var a, b, c, d := Octet(parts[0]), Octet(parts[1]), Octet(parts[2]), Octet(parts[3]);
      if a.None? || b.None? || c.None? || d.None? then None
      else Some(Quad(a.value, b.value, c.value, d.value))
  }

  /** The unsigned reading of a 32-bit left shift by one octet. */
  function ShiftOctet(result: nat): nat {
    (result * 0x100) % 0x1_0000_0000
  }

  lemma ShiftOrAppends(result: nat, n: nat)
    requires result < 0x100_0000 && n <= 255
    ensures Or(ShiftOctet(result), n) == result * 0x100 + n
  {
    Pow2Values();
    hide Pow2, Or;
    OrDisjoint(result, n, 8);
  }

  /** The octets of a list of parts put together, if all are octets. */
  function Packed(parts: seq<string>): Option<nat> {
    if parts == [] then Some(0)
    else
      var before, n := Packed(parts[..|parts| - 1]), Octet(parts[|parts| - 1]);
      if before.None? || n.None? then None else Some(before.value * 0x100 + n.value)
  }

  /** parseIPv4. */
  method ParseIPv4(ip: string) returns (address: Option<nat>)
    ensures address == ParsedIPv4(ip)
  {
    hide Octet, Split, Or;
    var parts := Split(ip, '.');
    if |parts| != 4 { return None; }
    var result: nat := 0;
    PackedFour(parts);
    for i := 0 to 4
      invariant Packed(parts[..i]) == Some(result) && result <= [0, 0xff, 0xffff, 0xff_ffff, 0xffff_ffff][i]
    {
      assert parts[..i + 1][..i] == parts[..i];
      var n := Octet(parts[i]);
      if n.None? {
        return None;
      }
      OctetRange(parts[i]);
      ShiftOrAppends(result, n.value);
      result := Or(ShiftOctet(result), n.value);
    }
    assert parts[..4] == parts;
    address := Some(result);
  }

  lemma OctetRange(part: string)
    ensures Octet(part).Some? ==> Octet(part).value <= 255
  {
  }

  lemma PackedFour(parts: seq<string>)
    requires |parts| == 4
    ensures Packed(parts) ==
      if exists i :: 0 <= i < 4 && Octet(parts[i]).None? then None
      else Some(Quad(Octet(parts[0]).value, Octet(parts[1]).value, Octet(parts[2]).value, Octet(parts[3]).value))
  {
    hide Octet;
    assert parts[..4] == parts;
    PackedSnoc(parts, 3);
    PackedSnoc(parts, 2);
    PackedSnoc(parts, 1);
    PackedSnoc(parts, 0);
    assert Packed(parts[..0]) == Some(0);
    hide Packed;
  }

  lemma PackedSnoc(parts: seq<string>, k: nat)
    requires k < |parts|
    ensures Packed(parts[..k + 1]) ==
      if Packed(parts[..k]).None? || Octet(parts[k]).None? then None
      else Some(Packed(parts[..k]).value * 0x100 + Octet(parts[k]).value)
  {
    hide Octet;
    assert parts[..k + 1][..k] == parts[..k];
  }

  /** The octet at a position, counted from the least significant. */
  function Byte(ip: nat, i: nat): (b: nat)
    ensures b <= 255
  {
    if i == 0 then ip % 0x100 else Byte(ip / 0x100, i - 1)
  }

  function PrintIPv4(ip: nat): string {
    Join([Decimal(Byte(ip, 3)), Decimal(Byte(ip, 2)), Decimal(Byte(ip, 1)), Decimal(Byte(ip, 0))], '.')
  }

  lemma OctetIsRead(n: nat)
    requires n <= 255
    ensures Octet(Decimal(n)) == Some(n) && '.' !in Decimal(n)
  {
    DecimalIsRead(n);
    hide DecimalValue;
  }

  lemma QuadOfBytes(ip: nat)
    requires ip < 0x1_0000_0000
    ensures Quad(Byte(ip, 3), Byte(ip, 2), Byte(ip, 1), Byte(ip, 0)) == ip
  {
    var x := ip / 0x100;
    var y := x / 0x100;
    assert Byte(ip, 1) == Byte(x, 0) && Byte(ip, 2) == Byte(x, 1) == Byte(y, 0);
    assert Byte(ip, 3) == Byte(x, 2) == Byte(y, 1) == Byte(y / 0x100, 0);
    LastByte(ip);
    LastByte(x);
    LastByte(y);
    hide Byte;
    TopByte(y / 0x100);
  }

  lemma LastByte(n: nat)
    ensures n == 0x100 * (n / 0x100) + Byte(n, 0)
  {
  }

  lemma TopByte(n: nat)
    requires n < 0x100
    ensures Byte(n, 0) == n
  {
  }

  /** Every 32-bit address is read back from its dotted decimal form. */
  lemma PrintedIPv4IsRead(ip: nat)
    requires ip < 0x1_0000_0000
    ensures ParsedIPv4(PrintIPv4(ip)) == Some(ip)
  {
    hide Octet, Decimal, Join, Split, Quad, Byte;
    var a, b, c, d := Byte(ip, 3), Byte(ip, 2), Byte(ip, 1), Byte(ip, 0);
    QuadOfBytes(ip);
    OctetIsRead(a);
    OctetIsRead(b);
    OctetIsRead(c);
    OctetIsRead(d);
    SplitOfJoin([Decimal(a), Decimal(b), Decimal(c), Decimal(d)], '.');
  }

  /** Text without a dot is no IPv4 address. */
  lemma DotlessIsNotIPv4(ip: string)
    requires '.' !in ip
    ensures ParsedIPv4(ip) == None
  {
    SplitParts(ip, '.');
  }
}
