/**
 * The clock check against NTP servers (src/audit/ntp-check.ts): timestamps in a
 * packet, the life of one query, and how far its result can be from the truth.
 * Times are seconds in double precision: every addition, subtraction and division is
 * rounded; scaling by a power of two is exact.
 */
module NtpClock {
  import opened Results
  import opened ImprintBytes
  import opened Doubles

  const EPOCH_OFFSET := 2208988800
  const SCALE := 4294967296.0
  const PACKET_SIZE := 48

  /** Math.round. */
  function Round(x: real): (n: int)
    ensures x - 0.5 < n as real <= x + 0.5
  {
    (x + 0.5).Floor
  }

  // ---- Timestamps ----

  predicate IsWord(n: int) {
    0 <= n < 0x1_0000_0000
  }

  function BigEndian(n: int): (bytes: seq<Byte>)
    requires IsWord(n)
    ensures |bytes| == 4
  {
    [n / 0x100_0000, n / 0x1_0000 % 0x100, n / 0x100 % 0x100, n % 0x100]
  }

  function ReadUInt32BE(bytes: seq<Byte>, offset: nat): (n: nat)
    requires offset + 4 <= |bytes|
    ensures IsWord(n)
  {
    var a: int, b: int, c: int, d: int := bytes[offset], bytes[offset + 1], bytes[offset + 2], bytes[offset + 3];
    a * 0x100_0000 + b * 0x1_0000 + c * 0x100 + d
  }

  lemma WordIsRead(n: int, bytes: seq<Byte>, offset: nat)
    requires IsWord(n) && offset + 4 <= |bytes| && bytes[offset..offset + 4] == BigEndian(n)
    ensures ReadUInt32BE(bytes, offset) == n
  {
    hide BigEndian;
    var word := BigEndian(n);
    assert bytes[offset] == bytes[offset..offset + 4][0] == word[0];
    assert bytes[offset + 1] == bytes[offset..offset + 4][1] == word[1];
    assert bytes[offset + 2] == bytes[offset..offset + 4][2] == word[2];
    assert bytes[offset + 3] == bytes[offset..offset + 4][3] == word[3];
    BytesOfWord(n);
  }

  lemma BytesOfWord(n: int)
    requires IsWord(n)
    ensures var word := BigEndian(n);
      word[0] as int * 0x100_0000 + word[1] as int * 0x1_0000 + word[2] as int * 0x100 + word[3] as int == n
  {
    DivideTwice(n);
    DivideTwice(n / 0x100);
  }

  lemma DivideTwice(n: int)
    requires n >= 0
    ensures n == n / 0x100 * 0x100 + n % 0x100
    ensures n / 0x100 / 0x100 == n / 0x1_0000
    ensures n / 0x100 / 0x100 / 0x100 == n / 0x100_0000
  {
  }

  function UnixSeconds(unixTimeMs: real): real {
    Double(unixTimeMs / 1000.0)
  }

  function Seconds(unixTimeMs: real): int {
    UnixSeconds(unixTimeMs).Floor + EPOCH_OFFSET
  }

  /** The part of a second. */
  function Part(unixTimeMs: real): real {
    var unixSeconds := UnixSeconds(unixTimeMs);
    Double(unixSeconds - unixSeconds.Floor as real)
  }

  function Fraction(unixTimeMs: real): int {
    Round(Part(unixTimeMs) * SCALE)
  }

  predicate Fits(unixTimeMs: real) {
    IsWord(Seconds(unixTimeMs)) && IsWord(Fraction(unixTimeMs))
  }

  function Stamp(unixTimeMs: real): (bytes: seq<Byte>)
    requires Fits(unixTimeMs)
    ensures |bytes| == 8
  {
    BigEndian(Seconds(unixTimeMs)) + BigEndian(Fraction(unixTimeMs))
  }

  /** Buffer.writeUInt32BE, which throws on a value that is not an unsigned 32-bit integer. */
  method WriteUInt32BE(buf: array<Byte>, value: int, offset: nat) returns (ok: bool)
    requires offset + 4 <= buf.Length
    modifies buf
    ensures ok <==> IsWord(value)
    ensures buf[..] == if ok then old(buf[..offset]) + BigEndian(value) + old(buf[offset + 4..]) else old(buf[..])
  {
    ok := IsWord(value);
    if ok {
      buf[offset] := value / 0x100_0000;
      buf[offset + 1] := value / 0x1_0000 % 0x100;
      buf[offset + 2] := value / 0x100 % 0x100;
      buf[offset + 3] := value % 0x100;
    }
  }

  /** writeNtpTimestamp. */
  method WriteNtpTimestamp(buf: array<Byte>, offset: nat, unixTimeMs: real) returns (ok: bool)
    requires offset + 8 <= buf.Length
    modifies buf
    ensures ok <==> Fits(unixTimeMs)
    ensures ok ==> buf[..] == old(buf[..offset]) + Stamp(unixTimeMs) + old(buf[offset + 8..])
  {
    hide Seconds, Fraction, BigEndian;
    ghost var before := buf[..];
    ok := WriteUInt32BE(buf, Seconds(unixTimeMs), offset);
    if ok {
      ghost var seconds := BigEndian(Seconds(unixTimeMs));
      ghost var half := buf[..];
      assert half == before[..offset] + seconds + before[offset + 4..];
      assert half[..offset + 4] == before[..offset] + seconds && half[offset + 8..] == before[offset + 8..];
      ok := WriteUInt32BE(buf, Fraction(unixTimeMs), offset + 4);
      if ok {
        ghost var fraction := BigEndian(Fraction(unixTimeMs));
        assert buf[..] == (before[..offset] + seconds) + fraction + before[offset + 8..];
        assert (before[..offset] + seconds) + fraction == before[..offset] + (seconds + fraction);
      }
    }
  }

  /** The time of a seconds word and a fraction word. */
  function TimeOf(seconds: int, fraction: int): real {
    Double(Double(seconds as real + fraction as real / SCALE) - EPOCH_OFFSET as real)
  }

  /** parseNtpTimestamp. */
  function ParseNtpTimestamp(bytes: seq<Byte>, offset: nat): real
    requires offset + 8 <= |bytes|
  {
    TimeOf(ReadUInt32BE(bytes, offset), ReadUInt32BE(bytes, offset + 4))
  }

  /** The times of the first NTP era, 1900-01-01 up to 2036-02-07, as whole milliseconds. */
  predicate InEra(unixTimeMs: int) {
    -2208988800000 <= unixTimeMs < 2085978496000
  }

  /** A written timestamp is read as the time of its two words. */
  lemma StampIsRead(ms: real, bytes: seq<Byte>, offset: nat)
    requires Fits(ms) && offset + 8 <= |bytes| && bytes[offset..offset + 8] == Stamp(ms)
    ensures ParseNtpTimestamp(bytes, offset) == TimeOf(Seconds(ms), Fraction(ms))
  {
    var stamp := Stamp(ms);
    assert stamp[..4] == BigEndian(Seconds(ms)) && stamp[4..] == BigEndian(Fraction(ms));
    assert bytes[offset..offset + 4] == stamp[..4] && bytes[offset + 4..offset + 8] == stamp[4..];
    hide BigEndian, Fraction, Seconds, ReadUInt32BE, Stamp, TimeOf;
    WordIsRead(Seconds(ms), bytes, offset);
    WordIsRead(Fraction(ms), bytes, offset + 4);
  }

  // ---- Rounding at the magnitudes of the clock ----

  /** Every time read from two words is a multiple of 2^-22 seconds, within the eras next to this one. */
  lemma TimeOnGrid(seconds: int, fraction: int)
    requires IsWord(seconds) && IsWord(fraction)
    ensures IsMultiple(TimeOf(seconds, fraction))
    ensures Abs(TimeOf(seconds, fraction)) <= SCALE
  {
    hide Double, IsMultiple;
    var v := seconds as real + fraction as real / SCALE;
    assert 0.0 <= v < SCALE;
    NearSeconds(v);
    var t := Double(v) - EPOCH_OFFSET as real;
    NearSeconds(t);
    if v >= 1073741824.0 {
      LargeIsMultiple(v);
      MinusWhole(Double(v), EPOCH_OFFSET);
      MultipleStays(t);
    } else {
      LargeIsMultiple(t);
    }
  }

  /** Milliseconds that are no eighth of a second are far from every multiple of 2^-22 seconds. */
  lemma FarFromGrid(ms: int, read: real)
    requires IsMultiple(read) && ms % 125 != 0
    ensures Abs(read - ms as real / 1000.0) > 0.5 / SCALE
  {
    var n := (read * 4194304.0).Floor;
    NoMultiple(ms, n);
    Apart(ms, n, read);
  }

  lemma Apart(ms: int, n: int, read: real)
    requires read * 4194304.0 == n as real && 125 * n != 524288 * ms
    ensures Abs(read - ms as real / 1000.0) > 0.5 / SCALE
  {
    var far := 125 * n - 524288 * ms;
    assert far as real == (read - ms as real / 1000.0) * 524288000.0;
    assert far >= 1 || far <= -1;
  }

  lemma NoMultiple(ms: int, n: int)
    requires ms % 125 != 0
    ensures 125 * n != 524288 * ms
  {
    var q, r := ms / 125, ms % 125;
    assert ms == 125 * q + r && 1 <= r <= 124;
    assert 524288 == 125 * 4194 + 38;
    if 125 * n == 524288 * ms {
      var m := n - 524288 * q - 4194 * r;
      assert 125 * m == 38 * r;
      Divides(m, r);
    }
  }

  lemma Divides(m: int, r: int)
    requires 125 * m == 38 * r
    ensures r % 125 == 0
  {
    assert r == 125 * (102 * m - 31 * r);
  }

  // ---- Whole milliseconds ----

  /** A whole number of milliseconds keeps its second, and its part of a second up to the two roundings. */
  lemma WholeSeconds(ms: int)
    requires InEra(ms)
    ensures UnixSeconds(ms as real).Floor == ms / 1000
    ensures var off := Abs(Part(ms as real) + (ms / 1000) as real - ms as real / 1000.0);
      && off <= 1.0 / 4194304.0 + 0.01 / SCALE
      && (ms >= 0 ==> off <= 0.5 / 4194304.0 + 0.01 / SCALE)
      && (ms % 125 == 0 ==> off == 0.0)
  {
    var x, q := ms as real / 1000.0, ms / 1000;
    var u := UnixSeconds(ms as real);
    hide Double, UnixSeconds;
    Split(ms);
    assert Abs(x) < SCALE && (ms >= 0 ==> x < 2147483648.0);
    NearSeconds(x);
    assert u == Double(x) by { UnixSecondsOf(ms); }
    if ms % 125 == 0 {
      Eighths(ms);
      EighthsExact(x);
      FloorBetween(u, q);
      EighthsExact(x - q as real);
    } else {
      if ms % 1000 == 0 { ThousandDivides(ms); }
      FloorBetween(u, q);
      NearPart(u - q as real);
      PartOff(x, u, q as real, Part(ms as real), 1.0 / 4194304.0);
      if ms >= 0 {
        PartOff(x, u, q as real, Part(ms as real), 0.5 / 4194304.0);
      }
    }
  }

  lemma UnixSecondsOf(ms: int)
    ensures UnixSeconds(ms as real) == Double(ms as real / 1000.0)
  {
    hide Double;
  }

  lemma FloorBetween(u: real, q: int)
    requires q as real <= u < q as real + 1.0
    ensures u.Floor == q
  {
  }

  lemma PartOff(x: real, u: real, q: real, part: real, bound: real)
    requires Abs(u - x) <= bound && Abs(part - (u - q)) <= 0.01 / SCALE
    ensures Abs(part + q - x) <= bound + 0.01 / SCALE
  {
  }

  lemma ThousandDivides(ms: int)
    requires ms % 1000 == 0
    ensures ms % 125 == 0
  {
    var q := ms / 1000;
    assert ms == 1000 * q;
    assert ms == 125 * (8 * q);
  }

  lemma Split(ms: int)
    ensures ms as real / 1000.0 == (ms / 1000) as real + (ms % 1000) as real / 1000.0
    ensures (ms / 1000) as real <= ms as real / 1000.0 <= (ms / 1000) as real + 0.999
    ensures ms % 1000 >= 1 ==> (ms / 1000) as real + 0.001 <= ms as real / 1000.0
  {
    var q, r := ms / 1000, ms % 1000;
    assert ms == 1000 * q + r;
    assert ms as real == 1000.0 * (q as real) + r as real;
  }

  lemma Eighths(ms: int)
    requires ms % 125 == 0
    ensures IsEighths(ms as real / 1000.0) && IsEighths(ms as real / 1000.0 - (ms / 1000) as real)
  {
    var m, q := ms / 125, ms / 1000;
    assert ms == 125 * m;
    assert ms as real / 1000.0 * 8.0 == m as real;
    assert (ms as real / 1000.0 - q as real) * 8.0 == (m - 8 * q) as real;
  }

  /** The fraction overflows its word exactly in the last 2^-33 of a second. */
  lemma FractionFitsIff(ms: real)
    ensures IsWord(Fraction(ms)) <==> Part(ms) < 1.0 - 0.5 / SCALE
  {
    hide Double;
    DoubleNonNegative(UnixSeconds(ms) - UnixSeconds(ms).Floor as real);
    hide UnixSeconds;
    var x := Part(ms) * SCALE;
    assert Fraction(ms) >= 0;
    assert Fraction(ms) >= 4294967296 <==> x + 0.5 >= SCALE;
  }

  /** Whole milliseconds never overflow the fraction, so they are written exactly within the era. */
  lemma MillisecondsFitIff(ms: int)
    ensures Fits(ms as real) <==> InEra(ms)
  {
    if InEra(ms) {
      WholeSeconds(ms);
      Split(ms);
      if ms % 1000 == 0 { ThousandDivides(ms); }
      hide Part, UnixSeconds, Abs, Round;
      PartFits(Part(ms as real), ms / 1000, ms as real / 1000.0);
    } else {
      OutOfEra(ms);
    }
  }

  lemma PartFits(part: real, q: int, x: real)
    requires q as real <= x <= q as real + 0.999 
    requires (part + q as real == x) || (q as real + 0.001 <= x && Abs(part + q as real - x) <= 0.0001)
    ensures IsWord(Round(part * SCALE))
  {
  }

  lemma OutOfEra(ms: int)
    requires !InEra(ms)
    ensures !IsWord(Seconds(ms as real))
  {
    hide Double;
    var x := ms as real / 1000.0;
    NearHalf(x);
    if Abs(x) < SCALE {
      NearSeconds(x);
      if ms == 2085978496000 {
        Eighths(ms);
        EighthsExact(x);
      }
    }
  }

  /**
   * A millisecond time written and read again is within 2^-21 + 2^-24 seconds, and a
   * fraction unit, of itself; from 1970 on within 3 * 2^-23. So rounding to milliseconds
   * gives it back. It is exact to half a unit of 2^-32 seconds exactly when it is a
   * multiple of an eighth of a second, and then it is exact.
   */
  lemma TimestampRoundTrip(ms: int, bytes: seq<Byte>, offset: nat)
    requires InEra(ms) && offset + 8 <= |bytes| && Fits(ms as real) && bytes[offset..offset + 8] == Stamp(ms as real)
    ensures var read := ParseNtpTimestamp(bytes, offset);
      var error := Abs(read - ms as real / 1000.0);
      && (error <= 0.5 / SCALE <==> ms % 125 == 0)
      && (ms % 125 == 0 ==> read == ms as real / 1000.0)
      && error <= 2.25 / 4194304.0 + 1.0 / SCALE
      && (ms >= 0 ==> error <= 1.5 / 4194304.0 + 1.0 / SCALE)
      && Round(read * 1000.0) == ms
  {
    StampIsRead(ms as real, bytes, offset);
    TimeOnGrid(Seconds(ms as real), Fraction(ms as real));
    hide Fits, ParseNtpTimestamp, Stamp, TimeOf, IsMultiple, Seconds, Fraction;
    TimeNear(ms);
    if ms % 125 != 0 {
      FarFromGrid(ms, ParseNtpTimestamp(bytes, offset));
    }
    RoundNear(ParseNtpTimestamp(bytes, offset), ms);
  }

  /** The first millisecond after 1.7e9 seconds: the fraction written is 4294656, where the exact one is 4294967. */
  lemma MillisecondIsInexact(bytes: seq<Byte>, offset: nat)
    requires var ms := 1700000000001.0;
      Fits(ms) && offset + 8 <= |bytes| && bytes[offset..offset + 8] == Stamp(ms)
    ensures Fraction(1700000000001.0) == 4294656 && Round(0.001 * SCALE) == 4294967
    ensures Abs(ParseNtpTimestamp(bytes, offset) - 1700000000.001) > 0.5 / SCALE
  {
    var ms := 1700000000001;
    assert ms as real == 1700000000001.0;
    hide Fits, Stamp, ParseNtpTimestamp, TimeOf, Double;
    TimestampRoundTrip(ms, bytes, offset);
    hide IsMultiple, UnixSeconds;
    assert UnixSeconds(ms as real) == 1700000000.0 + 4194.0 / 4194304.0 by { InexactSeconds(); }
    assert Part(ms as real) == 4194.0 / 4194304.0 by { InexactPart(); }
  }

  lemma InexactSeconds()
    ensures UnixSeconds(1700000000001.0) == 1700000000.0 + 4194.0 / 4194304.0
  {
    hide Double;
    var x := 1700000000.001;
    assert 1700000000001.0 / 1000.0 == x;
    NearSeconds(x);
    LargeIsMultiple(x);
    var n := (Double(x) * 4194304.0).Floor;
    assert n == 1700000000 * 4194304 + 4194;
  }

  lemma InexactPart()
    ensures Part(1700000000001.0) == 4194.0 / 4194304.0
  {
    hide Double, UnixSeconds;
    InexactSeconds();
    var p := 4194.0 / 4194304.0;
    assert (1700000000.0 + p).Floor == 1700000000;
    MultipleExact(p);
  }

  /** The two roundings of the reader, added to those of the writer. */
  lemma TimeNear(ms: int)
    requires InEra(ms)
    ensures var error := Abs(TimeOf(Seconds(ms as real), Fraction(ms as real)) - ms as real / 1000.0);
      && error <= 2.25 / 4194304.0 + 1.0 / SCALE
      && (ms >= 0 ==> error <= 1.5 / 4194304.0 + 1.0 / SCALE)
      && (ms % 125 == 0 ==> error == 0.0)
  {
    WholeSeconds(ms);
    MillisecondsFitIff(ms);
    FractionNear(ms);
    hide Double, Part, UnixSeconds, Abs, Fraction, TimeOf, Round;
    var x, q, p, f := ms as real / 1000.0, ms / 1000, Part(ms as real), Fraction(ms as real);
    ReadNear(x, q, p, f);
    if ms % 125 == 0 {
      Eighths(ms);
      OffZero(p, q as real, x);
      ReadExact(x, q, p, f);
    }
  }

  lemma FractionNear(ms: int)
    ensures var p, f := Part(ms as real), Fraction(ms as real);
      f == Round(p * SCALE) && -0.5 / SCALE <= f as real / SCALE - p <= 0.5 / SCALE
  {
    hide Part;
    Divided(Fraction(ms as real) as real, Part(ms as real));
  }

  lemma OffZero(p: real, q: real, x: real)
    requires Abs(p + q - x) == 0.0
    ensures p == x - q
  {
  }

  /** What a reader makes of a second and a fraction that are near a time. */
  lemma ReadNear(x: real, q: int, p: real, f: int)
    requires Abs(p + q as real - x) <= 1.0 / 4194304.0 + 0.01 / SCALE
    requires x >= 0.0 ==> Abs(p + q as real - x) <= 0.5 / 4194304.0 + 0.01 / SCALE
    requires -0.5 / SCALE <= f as real / SCALE - p <= 0.5 / SCALE
    requires -2208988800.0 <= x < 2085978496.0 && IsWord(f) && IsWord(q + EPOCH_OFFSET)
    ensures var error := Abs(TimeOf(q + EPOCH_OFFSET, f) - x);
      error <= 2.25 / 4194304.0 + 1.0 / SCALE && (x >= 0.0 ==> error <= 1.5 / 4194304.0 + 1.0 / SCALE)
  {
    hide Double, Abs, IsMultiple;
    var v := (q + EPOCH_OFFSET) as real + f as real / SCALE;
    var rounded := Double(v);
    var t := rounded - EPOCH_OFFSET as real;
    NearSeconds(v);
    if v >= 1073741824.0 {
      LargeIsMultiple(v);
      MinusWhole(rounded, EPOCH_OFFSET);
      MultipleExact(t);
    } else {
      NearSeconds(t);
    }
  }

  /** Eighths of a second are read exactly. */
  lemma ReadExact(x: real, q: int, p: real, f: int)
    requires IsEighths(x) && IsEighths(x - q as real) && p == x - q as real && f == Round(p * SCALE)
    requires -2208988800.0 <= x < 2085978496.0
    ensures TimeOf(q + EPOCH_OFFSET, f) == x
  {
    hide Double, Abs;
    WrittenEighths(p);
    EighthsPlus(x, EPOCH_OFFSET);
    assert (q + EPOCH_OFFSET) as real + f as real / SCALE == x + EPOCH_OFFSET as real;
    hide IsEighths, Round;
    EighthsExact(x + EPOCH_OFFSET as real);
    EighthsExact(x);
  }

  lemma WrittenEighths(p: real)
    requires IsEighths(p)
    ensures Round(p * SCALE) as real == p * SCALE
  {
    var n := (p * 8.0).Floor;
    Combined(0, -536870912, n);
    RoundOfWhole(p * SCALE, 0 - -536870912 * n);
  }

  lemma RoundOfWhole(y: real, k: int)
    requires y == k as real
    ensures Round(y) as real == y
  {
    var d := Round(y) - k;
    hide Round;
    assert d as real == Round(y) as real - k as real;
    assert d == 0;
  }

  lemma EighthsPlus(x: real, n: int)
    requires IsEighths(x)
    ensures IsEighths(x + n as real)
  {
    var m := (x * 8.0).Floor;
    Combined(m, -8, n);
    Whole((x + n as real) * 8.0, m - -8 * n);
  }

  lemma Divided(f: real, p: real)
    requires -0.5 <= f - p * SCALE <= 0.5
    ensures -0.5 / SCALE <= f / SCALE - p <= 0.5 / SCALE
  {
  }

  lemma RoundNear(read: real, ms: int)
    requires Abs(read - ms as real / 1000.0) <= 2.25 / 4194304.0 + 1.0 / SCALE
    ensures Round(read * 1000.0) == ms
  {
    var x := read * 1000.0;
    assert ms as real - 0.1 < x < ms as real + 0.1;
  }

  // ---- Packets ----

  /** The 48 bytes of a client request. */
  function Packet(sendTimeMs: int): (bytes: seq<Byte>)
    requires Fits(sendTimeMs as real)
    ensures |bytes| == PACKET_SIZE
  {
    [35] + seq(39, _ => 0) + Stamp(sendTimeMs as real)
  }

  /** buildNtpPacket; the write throws outside the era. */
  method BuildNtpPacket(sendTimeMs: int) returns (packet: Option<array<Byte>>)
    ensures packet.Some? <==> InEra(sendTimeMs)
    ensures packet.Some? ==> fresh(packet.value) && Fits(sendTimeMs as real) && packet.value[..] == Packet(sendTimeMs)
  {
    hide Seconds, Fraction, Stamp;
    MillisecondsFitIff(sendTimeMs);
    var buf := new Byte[PACKET_SIZE](_ => 0);
    buf[0] := 4 * 8 + 3;
    assert buf[..40] == [35] + seq(39, _ => 0);
    var ok := WriteNtpTimestamp(buf, 40, sendTimeMs as real);
    packet := if ok then Some(buf) else None;
  }

  datatype NtpError =
    | TooShort
    | Unsynchronized
    | VersionUnsupported
    | ModeUnexpected
    | StratumInvalid
    | OriginateMismatch
    | TransmitMissing
    | QueryTimeout
    | QueryFailed

  /** What a server says in its reply. */
  datatype Times = Times(receive: real, transmit: real)

  /** validateNtpResponse. */
  function ValidateNtpResponse(msg: seq<Byte>, request: seq<Byte>): Result<Times, NtpError> {
    if |msg| < PACKET_SIZE then Err(TooShort)
    else
      var header, stratum := msg[0], msg[1];
      if header / 64 == 3 then Err(Unsynchronized)
      else if header / 8 % 8 < 3 || header / 8 % 8 > 4 then Err(VersionUnsupported)
      else if header % 8 != 4 then Err(ModeUnexpected)
      else if stratum == 0 || stratum > 15 then Err(StratumInvalid)
      else if msg[24..32] != request then Err(OriginateMismatch)
      else if msg[40..48] == [0, 0, 0, 0, 0, 0, 0, 0] then Err(TransmitMissing)
      else Ok(Times(ParseNtpTimestamp(msg, 32), ParseNtpTimestamp(msg, 40)))
  }

  /** The reply of a server with the given header fields and timestamps, padded by anything. */
  function Reply(
    leap: nat, version: nat, mode: nat, stratum: Byte, middle: seq<Byte>,
    originate: seq<Byte>, receive: seq<Byte>, transmit: seq<Byte>, tail: seq<Byte>): seq<Byte>
    requires leap < 4 && version < 8 && mode < 8
  {
    [leap * 64 + version * 8 + mode, stratum] + middle + originate + receive + transmit + tail
  }

  lemma HeaderFields(leap: nat, version: nat, mode: nat)
    requires leap < 4 && version < 8 && mode < 8
    ensures var header := leap * 64 + version * 8 + mode;
      header < 256 && header / 64 == leap && header / 8 % 8 == version && header % 8 == mode
  {
  }

  /** The times of an accepted reply: multiples of 2^-22 seconds, at most 2^32 seconds from 1970. */
  predicate Readable(times: Times) {
    && IsMultiple(times.receive) && Abs(times.receive) <= SCALE
    && IsMultiple(times.transmit) && Abs(times.transmit) <= SCALE
  }

  /**
   * A reply is accepted exactly when its server is synchronized, speaks version 3 or 4,
   * answers as a server of stratum 1 to 15, echoes the request's own timestamp and has
   * a transmit time; the times are those of its own two stamps.
   */
  lemma ReplyAcceptedIff(
    leap: nat, version: nat, mode: nat, stratum: Byte, middle: seq<Byte>,
    originate: seq<Byte>, receive: seq<Byte>, transmit: seq<Byte>, tail: seq<Byte>, request: seq<Byte>)
    requires leap < 4 && version < 8 && mode < 8
    requires |middle| == 22 && |originate| == 8 && |receive| == 8 && |transmit| == 8
    ensures var msg := Reply(leap, version, mode, stratum, middle, originate, receive, transmit, tail);
      var result := ValidateNtpResponse(msg, request);
      && (result.Ok? <==>
            && leap != 3 && 3 <= version <= 4 && mode == 4 && 1 <= stratum <= 15
            && originate == request && transmit != [0, 0, 0, 0, 0, 0, 0, 0])
      && (result.Ok? ==> result.value == Times(ParseNtpTimestamp(receive, 0), ParseNtpTimestamp(transmit, 0)))
      && (result.Ok? ==> Readable(result.value))
  {
    hide ParseNtpTimestamp, Readable;
    HeaderFields(leap, version, mode);
    var msg := Reply(leap, version, mode, stratum, middle, originate, receive, transmit, tail);
    assert msg[24..32] == originate;
    assert msg[32..40] == receive;
    assert msg[40..48] == transmit;
    SameBytesRead(msg, 32, receive);
    SameBytesRead(msg, 40, transmit);
    ParsedIsReadable(receive, transmit);
  }

  /** Why a reply of at least a packet is refused, in this order; a shorter one is too short whatever it says. */
  lemma ReplyRefusals(
    leap: nat, version: nat, mode: nat, stratum: Byte, middle: seq<Byte>,
    originate: seq<Byte>, receive: seq<Byte>, transmit: seq<Byte>, tail: seq<Byte>, request: seq<Byte>, short: seq<Byte>)
    requires leap < 4 && version < 8 && mode < 8
    requires |middle| == 22 && |originate| == 8 && |receive| == 8 && |transmit| == 8 && |short| < 48
    ensures var msg := Reply(leap, version, mode, stratum, middle, originate, receive, transmit, tail);
      var result := ValidateNtpResponse(msg, request);
      && (result.Err? ==>
            result.error == (if leap == 3 then Unsynchronized
                             else if version != 3 && version != 4 then VersionUnsupported
                             else if mode != 4 then ModeUnexpected
                             else if stratum == 0 || stratum >= 16 then StratumInvalid
                             else if originate != request then OriginateMismatch
                             else TransmitMissing))
    ensures ValidateNtpResponse(short, request) == Err(TooShort)
  {
    hide ParseNtpTimestamp;
    HeaderFields(leap, version, mode);
    var msg := Reply(leap, version, mode, stratum, middle, originate, receive, transmit, tail);
    assert msg[24..32] == originate && msg[40..48] == transmit;
  }

  lemma ParsedIsReadable(receive: seq<Byte>, transmit: seq<Byte>)
    requires |receive| == 8 && |transmit| == 8
    ensures Readable(Times(ParseNtpTimestamp(receive, 0), ParseNtpTimestamp(transmit, 0)))
  {
    hide TimeOf, IsMultiple, ReadUInt32BE;
    TimeOnGrid(ReadUInt32BE(receive, 0), ReadUInt32BE(receive, 4));
    TimeOnGrid(ReadUInt32BE(transmit, 0), ReadUInt32BE(transmit, 4));
  }

  lemma SameBytesRead(bytes: seq<Byte>, offset: nat, stamp: seq<Byte>)
    requires |stamp| == 8 && offset + 8 <= |bytes| && bytes[offset..offset + 8] == stamp
    ensures ParseNtpTimestamp(bytes, offset) == ParseNtpTimestamp(stamp, 0)
  {
    forall i | 0 <= i < 8 ensures bytes[offset + i] == stamp[i] {
      assert bytes[offset..offset + 8][i] == stamp[i];
    }
    hide BigEndian, TimeOf;
    SameWordRead(bytes, offset, stamp, 0);
    SameWordRead(bytes, offset + 4, stamp, 4);
  }

  lemma SameWordRead(a: seq<Byte>, i: nat, b: seq<Byte>, j: nat)
    requires i + 4 <= |a| && j + 4 <= |b|
    requires a[i] == b[j] && a[i + 1] == b[j + 1] && a[i + 2] == b[j + 2] && a[i + 3] == b[j + 3]
    ensures ReadUInt32BE(a, i) == ReadUInt32BE(b, j)
  {
  }

  /** A reply to one request is accepted for another exactly when both were sent in the same millisecond. */
  lemma EchoNamesTheRequest(sent: int, other: int)
    requires InEra(sent) && InEra(other) && Fits(sent as real) && Fits(other as real)
    ensures Stamp(sent as real) == Stamp(other as real) <==> sent == other
  {
    if Stamp(sent as real) == Stamp(other as real) {
      var bytes := Stamp(sent as real);
      assert bytes[0..8] == bytes;
      hide Stamp, ParseNtpTimestamp, Fits;
      TimestampRoundTrip(sent, bytes, 0);
      TimestampRoundTrip(other, bytes, 0);
    }
  }

  // ---- The measurement ----

  /** Offset and round trip in milliseconds. */
  datatype Measurement = Measurement(offsetMs: int, roundTripMs: int)

  /** The offset and the round trip of RFC 5905, section 8, in exact arithmetic. */
  function ExactOffset(t1: real, t2: real, t3: real, t4: real): real {
    (t2 - t1 + t3 - t4) / 2.0
  }

  function ExactRoundTrip(t1: real, t2: real, t3: real, t4: real): real {
    t4 - t1 - (t3 - t2)
  }

  function Offset(t1: real, t2: real, t3: real, t4: real): real {
    Double(Double(Double(t2 - t1) + t3) - t4) / 2.0
  }

  function RoundTrip(t1: real, t2: real, t3: real, t4: real): real {
    Double(Double(t4 - t1) - Double(t3 - t2))
  }

  function Measure(t1: real, times: Times, t4: real): Measurement {
    Measurement(
      Round(Double(Offset(t1, times.receive, times.transmit, t4) * 1000.0)),
      Round(Double(Abs(RoundTrip(t1, times.receive, times.transmit, t4)) * 1000.0)))
  }

  /**
   * The server's clock is ahead by `ahead`. Whatever the four readings are, `forward`
   * and `backward` are the delays they show once the clocks are aligned: the exact offset
   * is wrong by half their difference and the exact round trip is their sum. Half the
   * round trip bounds the error exactly when no more than one direction seems to go back
   * in time.
   */
  lemma OffsetErrorIff(ahead: real, t1: real, t2: real, t3: real, t4: real)
    ensures var forward, backward := t2 - ahead - t1, t4 - (t3 - ahead);
      && ExactOffset(t1, t2, t3, t4) - ahead == (forward - backward) / 2.0
      && ExactRoundTrip(t1, t2, t3, t4) == forward + backward
      && (Abs(ExactOffset(t1, t2, t3, t4) - ahead) <= Abs(ExactRoundTrip(t1, t2, t3, t4)) / 2.0 <==>
            (forward >= 0.0 && backward >= 0.0) || (forward <= 0.0 && backward <= 0.0))
  {
  }

  /** Rounding moves the offset by at most 6 microseconds. */
  lemma OffsetNear(t1: real, t2: real, t3: real, t4: real)
    requires Abs(t1) <= SCALE && Abs(t2) <= SCALE && Abs(t3) <= SCALE && Abs(t4) <= SCALE
    ensures Abs(Offset(t1, t2, t3, t4) - ExactOffset(t1, t2, t3, t4)) <= 0.000006
  {
    hide Double;
    NearSum(t2 - t1);
    NearSum(Double(t2 - t1) + t3);
    NearSum(Double(Double(t2 - t1) + t3) - t4);
  }

  /** Rounding moves the round trip by at most 12 microseconds. */
  lemma RoundTripNear(t1: real, t2: real, t3: real, t4: real)
    requires Abs(t1) <= SCALE && Abs(t2) <= SCALE && Abs(t3) <= SCALE && Abs(t4) <= SCALE
    ensures Abs(RoundTrip(t1, t2, t3, t4) - ExactRoundTrip(t1, t2, t3, t4)) <= 0.000012
  {
    hide Double;
    NearSum(t4 - t1);
    NearSum(t3 - t2);
    NearSum(Double(t4 - t1) - Double(t3 - t2));
  }

  /** A reading of the clock in seconds is within 2^-22 of its milliseconds. */
  lemma ReadingNear(ms: int)
    requires InEra(ms)
    ensures Abs(UnixSeconds(ms as real) - ms as real / 1000.0) <= 1.0 / 4194304.0
    ensures Abs(UnixSeconds(ms as real)) <= SCALE
  {
    hide Double;
    NearSeconds(ms as real / 1000.0);
  }

  /**
   * The numbers reported, by a client whose clock is within the era: for non-negative
   * delays the offset in milliseconds is off by at most half the reported round trip,
   * three quarters for the two roundings to milliseconds, and two hundredths for the
   * roundings of doubles.
   */
  lemma MeasurementBound(ahead: real, sent: int, times: Times, now: int)
    requires InEra(sent) && InEra(now) && Readable(times)
    requires times.receive - ahead >= sent as real / 1000.0 && now as real / 1000.0 >= times.transmit - ahead
    ensures var m := Measure(UnixSeconds(sent as real), times, UnixSeconds(now as real));
      && m.roundTripMs >= 0
      && Abs(m.offsetMs as real - ahead * 1000.0) <= m.roundTripMs as real / 2.0 + 0.77
  {
    var t1, t2, t3, t4 := UnixSeconds(sent as real), times.receive, times.transmit, UnixSeconds(now as real);
    var x1, x4 := sent as real / 1000.0, now as real / 1000.0;
    ReadingNear(sent);
    ReadingNear(now);
    hide UnixSeconds, InEra, IsMultiple, Double, Offset, RoundTrip, Round, Abs;
    assert Abs(t2) <= SCALE && Abs(t3) <= SCALE;
    hide Readable;
    BoundOfReadings(ahead, t1, times, t4, x1, x4);
  }

  /** The same of any four readings, the client's two near its true times. */
  lemma BoundOfReadings(ahead: real, t1: real, times: Times, t4: real, x1: real, x4: real)
    requires Abs(t1) <= SCALE && Abs(times.receive) <= SCALE && Abs(times.transmit) <= SCALE && Abs(t4) <= SCALE
    requires Abs(t1 - x1) <= 1.0 / 4194304.0 && Abs(t4 - x4) <= 1.0 / 4194304.0
    requires times.receive - ahead >= x1 && x4 >= times.transmit - ahead
    ensures var m := Measure(t1, times, t4);
      m.roundTripMs >= 0 && Abs(m.offsetMs as real - ahead * 1000.0) <= m.roundTripMs as real / 2.0 + 0.77
  {
    hide Double, Offset, RoundTrip, Round, Abs, ExactOffset, ExactRoundTrip;
    var t2, t3 := times.receive, times.transmit;
    DelaysBound(ahead, x1, t2, t3, x4);
    MeasuredNear(t1, t2, t3, t4, x1, x4);
    Reported(ahead, ExactOffset(x1, t2, t3, x4), ExactRoundTrip(x1, t2, t3, x4), Offset(t1, t2, t3, t4), RoundTrip(t1, t2, t3, t4));
  }

  lemma DelaysBound(ahead: real, t1: real, t2: real, t3: real, t4: real)
    requires t2 - ahead >= t1 && t4 >= t3 - ahead
    ensures Abs(ExactOffset(t1, t2, t3, t4) - ahead) <= ExactRoundTrip(t1, t2, t3, t4) / 2.0
  {
    OffsetErrorIff(ahead, t1, t2, t3, t4);
  }

  /** How far the measured values are from the exact ones. */
  lemma MeasuredNear(t1: real, t2: real, t3: real, t4: real, x1: real, x4: real)
    requires Abs(t1) <= SCALE && Abs(t2) <= SCALE && Abs(t3) <= SCALE && Abs(t4) <= SCALE
    requires Abs(t1 - x1) <= 1.0 / 4194304.0 && Abs(t4 - x4) <= 1.0 / 4194304.0
    ensures Abs(Offset(t1, t2, t3, t4) - ExactOffset(x1, t2, t3, x4)) <= 0.0000063
    ensures Abs(RoundTrip(t1, t2, t3, t4) - ExactRoundTrip(x1, t2, t3, x4)) <= 0.0000125
    ensures Abs(Offset(t1, t2, t3, t4)) <= 34359738368.0 && Abs(RoundTrip(t1, t2, t3, t4)) <= 34359738368.0
  {
    hide Offset, RoundTrip;
    OffsetNear(t1, t2, t3, t4);
    RoundTripNear(t1, t2, t3, t4);
    ReadingsMove(t1, t2, t3, t4, x1, x4);
    assert Abs(ExactOffset(t1, t2, t3, t4)) <= 2.0 * SCALE && Abs(ExactRoundTrip(t1, t2, t3, t4)) <= 4.0 * SCALE;
    hide ExactOffset, ExactRoundTrip;
  }

  /** What the roundings of the client's two readings add. */
  lemma ReadingsMove(t1: real, t2: real, t3: real, t4: real, x1: real, x4: real)
    requires Abs(t1 - x1) <= 1.0 / 4194304.0 && Abs(t4 - x4) <= 1.0 / 4194304.0
    ensures Abs(ExactOffset(t1, t2, t3, t4) - ExactOffset(x1, t2, t3, x4)) <= 0.0000003
    ensures Abs(ExactRoundTrip(t1, t2, t3, t4) - ExactRoundTrip(x1, t2, t3, x4)) <= 0.0000005
  {
  }

  /** The reported milliseconds, from an offset and a round trip that are near the exact ones. */
  lemma Reported(ahead: real, exactOffset: real, exactTrip: real, offset: real, trip: real)
    requires Abs(exactOffset - ahead) <= exactTrip / 2.0
    requires Abs(offset - exactOffset) <= 0.0000063 && Abs(trip - exactTrip) <= 0.0000125
    requires Abs(offset) <= 34359738368.0 && Abs(trip) <= 34359738368.0
    ensures var o, r := Round(Double(offset * 1000.0)), Round(Double(Abs(trip) * 1000.0));
      r >= 0 && Abs(o as real - ahead * 1000.0) <= r as real / 2.0 + 0.77
  {
    NearMs(offset * 1000.0);
    NearMs(Abs(trip) * 1000.0);
    hide Double;
    var o, r := Round(Double(offset * 1000.0)), Round(Double(Abs(trip) * 1000.0));
    assert Abs(o as real - offset * 1000.0) <= 0.504;
    assert Abs(r as real - Abs(trip) * 1000.0) <= 0.504;
    hide Round;
    assert Abs(trip) >= exactTrip - 0.0000125;
  }

  /** The drift warning of a result. */
  predicate DriftWarned(m: Measurement, thresholdMs: int) {
    (if m.offsetMs < 0 then -m.offsetMs else m.offsetMs) > thresholdMs
  }

  /** A warning is right, and silence is right, up to the reported round trip. */
  lemma WarningIsJustified(ahead: real, sent: int, times: Times, now: int, thresholdMs: int)
    requires InEra(sent) && InEra(now) && Readable(times)
    requires times.receive - ahead >= sent as real / 1000.0 && now as real / 1000.0 >= times.transmit - ahead
    ensures var m := Measure(UnixSeconds(sent as real), times, UnixSeconds(now as real));
      var slack := m.roundTripMs as real / 2.0 + 0.77;
      && (DriftWarned(m, thresholdMs) ==> Abs(ahead) * 1000.0 > thresholdMs as real - slack)
      && (!DriftWarned(m, thresholdMs) ==> Abs(ahead) * 1000.0 <= thresholdMs as real + slack)
  {
    MeasurementBound(ahead, sent, times, now);
    hide Measure, UnixSeconds, Readable;
  }

  // ---- One query ----

  datatype Event =
    | Connected(now: int)
    | Message(bytes: seq<Byte>, now: int)
    | TimerFired
    | SocketFailed

  datatype Verdict = Measured(m: Measurement) | Failed(error: NtpError)

  /** sendTime is set once the socket is connected, outcome once the promise is settled. */
  datatype QueryState = QueryState(sentAt: Option<int>, outcome: Option<Verdict>)

  const FRESH := QueryState(None, None)

  /** What a reply to the request sent at `sent` settles. */
  function Judge(sent: int, bytes: seq<Byte>, now: int): Verdict
    requires Fits(sent as real)
  {
    match ValidateNtpResponse(bytes, Stamp(sent as real))
    case Err(error) => Failed(error)
    case Ok(times) => Measured(Measure(UnixSeconds(sent as real), times, UnixSeconds(now as real)))
  }

  /** What one event settles, given when the request was sent. */
  function Settles(sentAt: Option<int>, event: Event): Option<Verdict> {
    match event
    case Connected(now) => if Fits(now as real) then None else Some(Failed(QueryFailed))
    case Message(bytes, now) =>
      if sentAt.Some? && Fits(sentAt.value as real) then Some(Judge(sentAt.value, bytes, now)) else None
    case TimerFired => Some(Failed(QueryTimeout))
    case SocketFailed => Some(Failed(QueryFailed))
  }

  function QueryStep(s: QueryState, event: Event): QueryState {
    if s.outcome.Some? then s
    else QueryState(if event.Connected? then Some(event.now) else s.sentAt, Settles(s.sentAt, event))
  }

  function Run(events: seq<Event>): QueryState {
    if events == [] then FRESH else QueryStep(Run(events[..|events| - 1]), events[|events| - 1])
  }

  /** When the request was last sent. */
  function SentAt(events: seq<Event>): Option<int> {
    if events == [] then None
    else if events[|events| - 1].Connected? then Some(events[|events| - 1].now)
    else SentAt(events[..|events| - 1])
  }

  /** The handlers of one query's socket. */
  class Query {
    var sendTime: Option<int>
    var request: Option<seq<Byte>>
    var outcome: Option<Verdict>

    ghost function State(): QueryState
      reads this
    {
      QueryState(sendTime, outcome)
    }

    /** An open query that was sent keeps the timestamp it sent. */
    ghost predicate Valid()
      reads this
    {
      outcome.None? ==>
        if sendTime.Some? then Fits(sendTime.value as real) && request == Some(Stamp(sendTime.value as real))
        else request.None?
    }

    constructor ()
      ensures Valid() && State() == FRESH
    {
      sendTime, request, outcome := None, None, None;
    }

    method OnConnect(now: int)
      requires Valid()
      modifies this
      ensures Valid() && State() == QueryStep(old(State()), Connected(now))
    {
      hide Seconds, Fraction, Stamp;
      if outcome.Some? { return; }
      sendTime := Some(now);
      MillisecondsFitIff(now);
      var packet := BuildNtpPacket(now);
      if packet.Some? {
        assert packet.value[..][40..48] == Stamp(now as real);
        request := Some(packet.value[40..48]);
      } else {
        outcome := Some(Failed(QueryFailed));
      }
    }

    method OnMessage(bytes: seq<Byte>, now: int)
      requires Valid()
      modifies this
      ensures Valid() && State() == QueryStep(old(State()), Message(bytes, now))
    {
      hide ValidateNtpResponse, Measure, Stamp, Fits;
      if outcome.Some? || sendTime.None? || request.None? { return; }
      outcome := Some(
        match ValidateNtpResponse(bytes, request.value)
        case Err(error) => Failed(error)
        case Ok(times) => Measured(Measure(UnixSeconds(sendTime.value as real), times, UnixSeconds(now as real))));
    }

    method OnTimer()
      requires Valid()
      modifies this
      ensures Valid() && State() == QueryStep(old(State()), TimerFired)
    {
      if outcome.None? { outcome := Some(Failed(QueryTimeout)); }
    }

    method OnError()
      requires Valid()
      modifies this
      ensures Valid() && State() == QueryStep(old(State()), SocketFailed)
    {
      if outcome.None? { outcome := Some(Failed(QueryFailed)); }
    }
  }

  /** Event i is the first of a run that settles anything. */
  ghost predicate FirstSettling(events: seq<Event>, i: nat)
    requires i < |events|
  {
    && Settles(SentAt(events[..i]), events[i]).Some?
    && forall j :: 0 <= j < i ==> Settles(SentAt(events[..j]), events[j]).None?
  }

  /** No event of a run settles anything. */
  ghost predicate NothingSettles(events: seq<Event>) {
    forall i :: 0 <= i < |events| ==> Settles(SentAt(events[..i]), events[i]).None?
  }

  lemma NothingSettlesSnoc(events: seq<Event>)
    requires events != []
    ensures var n := |events| - 1;
      NothingSettles(events) <==> NothingSettles(events[..n]) && Settles(SentAt(events[..n]), events[n]).None?
  {
    hide Settles, SentAt;
    assert forall i :: 0 <= i < |events| ==> events[..|events| - 1][..i] == events[..i];
  }

  /** A query is open as long as no event settled it, and then knows when it was sent. */
  lemma {:induction false} OpenIff(events: seq<Event>)
    ensures Run(events).outcome.None? <==> NothingSettles(events)
    ensures Run(events).outcome.None? ==> Run(events).sentAt == SentAt(events)
  {
    hide Settles, NothingSettles;
    if events == [] {
      assert NothingSettles([]) by { NothingSettlesEmpty(); }
    } else {
      OpenIff(events[..|events| - 1]);
      NothingSettlesSnoc(events);
    }
  }

  lemma NothingSettlesEmpty()
    ensures NothingSettles([])
  {
  }

  /**
   * For every order of events: the outcome of a query is what the first event that
   * settles anything says, and later events change nothing.
   */
  lemma {:induction false} FirstVerdictStands(events: seq<Event>, i: nat)
    requires i < |events| && FirstSettling(events, i)
    ensures Run(events).outcome == Settles(SentAt(events[..i]), events[i])
  {
    hide Settles;
    var n := |events| - 1;
    var earlier := events[..n];
    assert forall k :: 0 <= k <= n ==> earlier[..k] == events[..k];
    if i < n {
      assert FirstSettling(earlier, i);
      FirstVerdictStands(earlier, i);
    } else {
      assert NothingSettles(earlier);
      OpenIff(earlier);
    }
  }

  /**
   * The outcomes of one query: outside the era it fails when it connects; a reply after a
   * request sent in the era is judged against that request; a timer or a socket error
   * fails it; a reply before the request is ignored.
   */
  lemma QueryAnswers(sent: int, bytes: seq<Byte>, now: int)
    ensures !InEra(sent) ==> Run([Connected(sent)]).outcome == Some(Failed(QueryFailed))
    ensures InEra(sent) ==>
      && Fits(sent as real) && Run([Connected(sent)]).outcome.None?
      && Run([Connected(sent), Message(bytes, now)]).outcome == Some(
           match ValidateNtpResponse(bytes, Stamp(sent as real))
           case Err(error) => Failed(error)
           case Ok(times) => Measured(Measure(UnixSeconds(sent as real), times, UnixSeconds(now as real))))
    ensures Run([Message(bytes, now)]).outcome.None?
    ensures Run([TimerFired]).outcome == Some(Failed(QueryTimeout)) && Run([SocketFailed]).outcome == Some(Failed(QueryFailed))
  {
    MillisecondsFitIff(sent);
    hide Fits, Stamp, ValidateNtpResponse, Measure, UnixSeconds, InEra;
    RunOne(Connected(sent));
    RunOne(Message(bytes, now));
    RunOne(TimerFired);
    RunOne(SocketFailed);
    var events := [Connected(sent), Message(bytes, now)];
    assert events[..1] == [Connected(sent)];
    assert Run(events) == QueryStep(Run(events[..1]), events[1]);
  }

  lemma RunOne(event: Event)
    ensures Run([event]) == QueryStep(FRESH, event)
  {
    assert [event][..0] == [];
  }

  // ---- The check ----

  const DEFAULT_SERVERS := ["pool.ntp.org"]

  function Targets(servers: seq<string>): (targets: seq<string>)
    ensures |targets| > 0 && (|servers| > 0 ==> targets == servers) && (|servers| == 0 ==> targets == ["pool.ntp.org"])
  {
    if servers != [] then servers else DEFAULT_SERVERS
  }

  datatype CheckResult = Reached(server: string, m: Measurement, driftWarned: bool) | Unreachable(servers: seq<string>)

  /** checkNtpClock: the first server that can be measured decides; `answers` are the queries' outcomes in order. */
  method CheckNtpClock(servers: seq<string>, answers: seq<Verdict>, thresholdMs: int) returns (result: CheckResult)
    requires |answers| == |Targets(servers)|
    ensures result.Unreachable? <==> forall i :: 0 <= i < |answers| ==> answers[i].Failed?
    ensures result.Unreachable? ==> result.servers == Targets(servers)
    ensures result.Reached? ==>
      exists i :: (
        && 0 <= i < |answers|
        && answers[i] == Measured(result.m) && result.server == Targets(servers)[i]
        && (forall j :: 0 <= j < i ==> answers[j].Failed?))
    ensures result.Reached? ==> (result.driftWarned <==> DriftWarned(result.m, thresholdMs))
  {
    var targets := Targets(servers);
    for i := 0 to |targets|
      invariant forall j :: 0 <= j < i ==> answers[j].Failed?
    {
      if answers[i].Measured? {
        return Reached(targets[i], answers[i].m, DriftWarned(answers[i].m, thresholdMs));
      }
    }
    result := Unreachable(targets);
  }
}
