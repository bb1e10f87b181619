/** Which IPv6 texts count as private (src/adapters/ip-validation.ts:52-131). */
module Ipv6Private {
  import opened Results
  import opened Strings
  import opened Bits
  import opened Ipv4
  import opened Ipv6Text

  /** Two hextets as one unsigned 32-bit number: (high << 16 >>> 0 | low) >>> 0. */
  function Joined(high: nat, low: nat): nat {
    Or((high * 0x1_0000) % 0x1_0000_0000, low)
  }

  /** parseLegacyMappedIpv4. */
  function LegacyMapped(ip: string): Option<nat> {
    if !StartsWith(ip, "::ffff:") then None
    else
      var suffix := ip[7..];
      if ParsedIPv4(suffix).Some? then ParsedIPv4(suffix)
      else
        var hextets := Split(suffix, ':');
        if |hextets| != 2 || !IsHextet(hextets[0]) || !IsHextet(hextets[1]) then None
        else Some(Joined(HexValue(hextets[0]), HexValue(hextets[1])))
  }

  predicate AllZero(hextets: seq<nat>) {
    forall i | 0 <= i < |hextets| :: hextets[i] == 0
  }

  /** parseIPv4MappedIPv6. */
  function Mapped(ip: string): Option<nat> {
    if LegacyMapped(ip).Some? then LegacyMapped(ip)
    else
      var expanded := Expand(ip);
      if expanded.None? then None
      else
        ExpandedInRange(ip);
        var h := expanded.value;
        if !AllZero(h[..5]) || h[5] != 0xffff then None else Some(Joined(h[6], h[7]))
  }

  /** parseIPv4CompatibleIpv6. */
  function Compatible(ip: string): Option<nat> {
    if StartsWith(ip, "::") && ParsedIPv4(ip[2..]).Some? then ParsedIPv4(ip[2..])
    else
      var expanded := Expand(ip);
      if expanded.None? then None
      else
        ExpandedInRange(ip);
        var h := expanded.value;
        if !AllZero(h[..6]) then None else Some(Joined(h[6], h[7]))
  }

  function Embedded(ip: string): Option<nat> {
    if Mapped(ip).Some? then Mapped(ip) else Compatible(ip)
  }

  predicate LooksPrivate(text: string) {
    || StartsWith(text, "fc") || StartsWith(text, "fd")
    || (StartsWith(text, "fe") && |text| > 2 && text[2] in "89ab")
    || StartsWith(text, "ff")
  }

  /** isPrivateIPv6. */
  predicate IsPrivateIPv6(ip: string) {
    var text := Lower(ip);
    if Embedded(text).Some? then IsPrivateIPv4(Embedded(text).value)
    else text == "::" || text == "::1" || LooksPrivate(text)
  }

  // ---- The ranges, on address values ----

  /** A mapped (::ffff:0:0/96) or compatible (::/96) form of an IPv4 address. */
  predicate EmbedsIPv4(h: seq<nat>)
    requires |h| == 8
  {
    h[0] == 0 && h[1] == 0 && h[2] == 0 && h[3] == 0 && h[4] == 0 && (h[5] == 0 || h[5] == 0xffff)
  }

  /** fc00::/7, fe80::/10, ff00::/8, or an embedded address of a listed IPv4 block. */
  predicate InPrivateRange(h: seq<nat>)
    requires |h| == 8
  {
    || 0xfc00 <= h[0] <= 0xfdff
    || 0xfe80 <= h[0] <= 0xfebf
    || 0xff00 <= h[0]
    || (EmbedsIPv4(h) && InPrivateBlock(h[6] * 0x1_0000 + h[7]))
  }

  /** The unspecified address and the loopback address are embedded forms of 0.0.0.0/8. */
  lemma LoopbackIsPrivate(h: seq<nat>)
    requires |h| == 8 && AllZero(h[..7]) && h[7] <= 1
    ensures InPrivateRange(h)
  {
    assert forall i :: 0 <= i < 7 ==> h[i] == h[..7][i];
    ZeroBlock(h[7]);
    hide InPrivateBlock;
  }

  lemma ZeroBlock(ip: nat)
    requires ip <= 0xff_ffff
    ensures InPrivateBlock(ip)
  {
    assert |PrivateBlocks| == 14 && PrivateBlocks[5] == Block(0, 0, 0, 0, 8);
    hide PrivateBlocks;
    Pow2Values();
    hide Pow2;
    assert InBlock(PrivateBlocks[5], ip);
  }

  lemma JoinedIsValue(high: nat, low: nat)
    requires high <= 0xffff && low <= 0xffff
    ensures Joined(high, low) == high * 0x1_0000 + low
  {
    Pow2Values();
    hide Pow2, Or;
    OrDisjoint(high, low, 16);
  }

  /** Without a dot, the embedded address is that of the value. */
  lemma EmbeddedOfValue(text: string)
    requires '.' !in text && Expand(text).Some?
    ensures |Expand(text).value| == 8
    ensures var h := Expand(text).value;
      Embedded(text) == if EmbedsIPv4(h) then Some(h[6] * 0x1_0000 + h[7]) else None
  {
    hide Expand, ParsedIPv4, Joined, IsHextet;
    ExpandedInRange(text);
    var h := Expand(text).value;
    JoinedIsValue(h[6], h[7]);
    LegacyIsMapped(text);
    if StartsWith(text, "::") { DotlessIsNotIPv4(text[2..]); }
    assert h[..6] == [h[0], h[1], h[2], h[3], h[4], h[5]];
    assert h[..5] == [h[0], h[1], h[2], h[3], h[4]];
  }

  /** The special case for `::ffff:` reads what the expander reads. */
  lemma LegacyIsMapped(text: string)
    requires '.' !in text && Expand(text).Some?
    ensures |Expand(text).value| == 8
    ensures LegacyMapped(text).Some? ==>
      var h := Expand(text).value;
      && h[0] == h[1] == h[2] == h[3] == h[4] == 0 && h[5] == 0xffff
      && LegacyMapped(text) == Some(h[6] * 0x1_0000 + h[7])
  {
    hide Expand, LegacyMapped, Split, HexValue, Written, Meaning, IsHextet, Spells;
    ExpandedInRange(text);
    if LegacyMapped(text).Some? {
      var parts := LegacyParts(text);
      LegacySpelling(text, parts);
      LegacyMeaning(parts);
      SpellingIsExpanded(Compressed([], ["ffff"] + parts));
    }
  }

  lemma LegacyParts(text: string) returns (parts: seq<string>)
    requires '.' !in text && LegacyMapped(text).Some?
    ensures |parts| == 2 && IsHextet(parts[0]) && IsHextet(parts[1])
    ensures StartsWith(text, "::ffff:") && text[7..] == Join(parts, ':')
    ensures LegacyMapped(text) == Some(HexValue(parts[0]) * 0x1_0000 + HexValue(parts[1]))
  {
    var suffix := text[7..];
    DotlessIsNotIPv4(suffix);
    parts := Split(suffix, ':');
    JoinOfSplit(suffix, ':');
    HextetInRange(parts[0], 4);
    HextetInRange(parts[1], 4);
    hide Split, HexValue, Join, ParsedIPv4;
    JoinedIsValue(HexValue(parts[0]), HexValue(parts[1]));
  }

  lemma LegacySpelling(text: string, parts: seq<string>)
    requires |parts| == 2 && IsHextet(parts[0]) && IsHextet(parts[1])
    requires StartsWith(text, "::ffff:") && text[7..] == Join(parts, ':')
    ensures var f := Compressed([], ["ffff"] + parts); Spells(f, 8) && Written(f) == text
  {
    var all := ["ffff"] + parts;
    assert IsHextet("ffff");
    assert all[1..] == parts;
    assert text == "::ffff:" + text[7..];
    assert "" + "::" + ("ffff" + [':'] + Join(parts, ':')) == "::ffff:" + Join(parts, ':');
  }

  lemma LegacyMeaning(parts: seq<string>)
    requires |parts| == 2 && IsHextet(parts[0]) && IsHextet(parts[1])
    requires Spells(Compressed([], ["ffff"] + parts), 8)
    ensures Meaning(Compressed([], ["ffff"] + parts)) ==
      [0, 0, 0, 0, 0, 0xffff, HexValue(parts[0]), HexValue(parts[1])]
  {
    FourDigits("ffff");
    hide HexValue;
  }

  // ---- The first hextet ----

  lemma FourDigits(s: string)
    requires |s| == 4
    ensures HexValue(s) == HexDigit(s[0]) * 0x1000 + HexDigit(s[1]) * 0x100 + HexDigit(s[2]) * 0x10 + HexDigit(s[3])
  {
    assert s[..3][..2] == s[..2] && s[..2][..1] == s[..1] && s[..1][..0] == "";
    assert HexValue(s[..1]) == HexDigit(s[0]);
    assert HexValue(s[..2]) == HexValue(s[..1]) * 16 + HexDigit(s[1]);
    assert HexValue(s[..3]) == HexValue(s[..2]) * 16 + HexDigit(s[2]);
  }

  ghost predicate StartsText(first: string, rest: string, text: string, value: nat) {
    && text == first + rest && (rest == "" || rest[0] == ':')
    && (if first == "" then value == 0 else IsHextet(first) && value == HexValue(first))
  }

  lemma FirstOfColons(parts: seq<string>) returns (rest: string)
    requires parts != []
    ensures Colons(parts) == parts[0] + rest && (rest == "" || rest[0] == ':')
  {
    rest := if |parts| == 1 then "" else [':'] + Join(parts[1..], ':');
  }

  lemma FirstOfCompressed(left: seq<string>, right: seq<string>) returns (first: string, rest: string)
    requires Spells(Compressed(left, right), 8)
    ensures StartsText(first, rest, Written(Compressed(left, right)), Meaning(Compressed(left, right))[0])
  {
    hide IsHextet, HexValue, Join;
    if left == [] {
      first, rest := "", "::" + Colons(right);
      assert Written(Compressed(left, right)) == "" + rest;
    } else {
      var tail := FirstOfColons(left);
      first, rest := left[0], tail + ("::" + Colons(right));
      assert HexValue("") == 0 || IsHextet(first);
      assert Written(Compressed(left, right)) == first + rest;
      assert IsHextet(first);
      HextetIsNotEmpty(first);
    }
  }

  lemma HextetIsNotEmpty(segment: string)
    requires IsHextet(segment)
    ensures segment != ""
  {
  }

  /** The text of an expanded address starts with its first hextet, or with the double colon and a zero. */
  lemma FirstHextet(text: string) returns (first: string, rest: string)
    requires Expand(text).Some?
    ensures |Expand(text).value| == 8
    ensures StartsText(first, rest, text, Expand(text).value[0])
  {
    ExpandedInRange(text);
    var f := ExpandedIsSpelling(text);
    hide Expand;
    match f
    case Full(parts) =>
      hide HexValue, IsHextet;
      first := parts[0];
      rest := FirstOfColons(parts);
      assert IsHextet(first);
      HextetIsNotEmpty(first);
    case Compressed(left, right) =>
      hide StartsText, Spells, Written, Meaning;
      first, rest := FirstOfCompressed(left, right);
  }

  lemma HexLetters(c: char)
    requires IsHexDigit(c)
    ensures HexDigit(c) == 12 <==> c == 'c'
    ensures HexDigit(c) == 13 <==> c == 'd'
    ensures HexDigit(c) == 14 <==> c == 'e'
    ensures HexDigit(c) == 15 <==> c == 'f'
    ensures 8 <= HexDigit(c) <= 11 <==> c in "89ab"
  {
  }

  /** The prefix tests on the first three characters. */
  lemma LooksPrivateByDigits(text: string)
    requires |text| >= 3
    ensures LooksPrivate(text) <==>
      text[0] == 'f' && (text[1] == 'c' || text[1] == 'd' || text[1] == 'f' || (text[1] == 'e' && text[2] in "89ab"))
  {
    assert text[..2] == [text[0], text[1]];
  }

  /** Prefix tests on the text are range tests on a first hextet of four digits. */
  lemma PrefixOfFour(first: string, rest: string)
    requires IsHextet(first) && |first| == 4
    ensures LooksPrivate(first + rest) <==> HighRange(HexValue(first))
  {
    FourDigits(first);
    LooksPrivateByDigits(first + rest);
    HexLetters(first[0]);
    HexLetters(first[1]);
    HexLetters(first[2]);
    hide HexValue, HexDigit, LooksPrivate;
  }

  predicate HighRange(v: nat) {
    0xfc00 <= v <= 0xfdff || 0xfe80 <= v <= 0xfebf || 0xff00 <= v
  }

  /** Whatever the spelling, a high range shows in the text; a short first hextet may only look like one. */
  lemma PrefixOfText(first: string, rest: string, text: string, value: nat)
    requires StartsText(first, rest, text, value)
    ensures HighRange(value) ==> LooksPrivate(text)
    ensures LooksPrivate(text) && value >= 0x1000 ==> HighRange(value)
    ensures first == "" ==> !LooksPrivate(text)
  {
    if |first| == 4 {
      PrefixOfFour(first, rest);
    } else if first != "" {
      HextetInRange(first, 3);
    } else {
      assert text != "" ==> text[0] == ':';
    }
  }

  /**
   * The private test on a text without a dot, exactly: the address lies in a private range,
   * or its first hextet has fewer than four digits and the text merely looks private.
   */
  lemma PrivateIff(ip: string)
    requires '.' !in ip && Expand(Lower(ip)).Some?
    ensures |Expand(Lower(ip)).value| == 8
    ensures var h := Expand(Lower(ip)).value;
      IsPrivateIPv6(ip) <==> InPrivateRange(h) || (0 < h[0] < 0x1000 && LooksPrivate(Lower(ip)))
  {
    hide Expand, LooksPrivate, Embedded, IsPrivateIPv4, InPrivateBlock, StartsText, EmbedsIPv4;
    var text := Lower(ip);
    ExpandedInRange(text);
    var h := Expand(text).value;
    EmbeddedOfValue(text);
    var first, rest := FirstHextet(text);
    PrefixOfText(first, rest, text, h[0]);
    if EmbedsIPv4(h) {
      EmbeddedFits(h);
      EmbeddedStartsWithZero(h);
      PrivateIffInBlock(h[6] * 0x1_0000 + h[7]);
    } else {
      NotUnspecified(text);
      if LooksPrivate(text) { ZeroLooksLikeNothing(first, rest, text, h[0]); }
    }
  }

  /** An address outside every private range that is reported private: its first hextet is 0xfc. */
  lemma ShortHextetLooksPrivate()
    ensures Expand(Lower("fc::1")) == Some([0xfc, 0, 0, 0, 0, 0, 0, 1])
    ensures IsPrivateIPv6("fc::1") && !InPrivateRange([0xfc, 0, 0, 0, 0, 0, 0, 1])
  {
    assert Lower("fc::1") == "fc::1";
    ShortExpands();
    assert LooksPrivate("fc::1") by { assert "fc::1"[..2] == "fc"; }
    hide Expand, Lower, InPrivateBlock, IsPrivateIPv6, LooksPrivate;
    PrivateIff("fc::1");
  }

  lemma ShortExpands()
    ensures Expand("fc::1") == Some([0xfc, 0, 0, 0, 0, 0, 0, 1])
  {
    ShortSpells();
    ShortMeans();
    hide *;
    SpellingIsExpanded(Compressed(["fc"], ["1"]));
  }

  lemma ShortSpells()
    ensures var f := Compressed(["fc"], ["1"]); Spells(f, 8) && Written(f) == "fc::1"
  {
    assert IsHextet("fc") && IsHextet("1");
    hide IsHextet;
    assert Colons(["fc"]) == "fc" && Colons(["1"]) == "1";
    hide Colons;
    assert "fc" + "::" + "1" == "fc::1";
  }

  lemma ShortMeans()
    requires Spells(Compressed(["fc"], ["1"]), 8)
    ensures Meaning(Compressed(["fc"], ["1"])) == [0xfc, 0, 0, 0, 0, 0, 0, 1]
  {
    ShortValues();
    hide HexValue, Values, Zeros;
    assert Values(["fc"]) == [0xfc] && Values(["1"]) == [1];
    assert Zeros(6) == [0, 0, 0, 0, 0, 0];
  }

  lemma ShortValues()
    ensures HexValue("fc") == 0xfc && HexValue("1") == 1
  {
    assert "fc"[..1] == "f" && "f"[..0] == "" && "1"[..0] == "";
    assert HexValue("f") == 15;
  }

  lemma EmbeddedStartsWithZero(h: seq<nat>)
    requires |h| == 8 && EmbedsIPv4(h)
    ensures h[0] == 0
  {
  }

  lemma EmbeddedFits(h: seq<nat>)
    requires |h| == 8 && h[6] <= 0xffff && h[7] <= 0xffff
    ensures h[6] * 0x1_0000 + h[7] < Pow2(32)
  {
    Pow2Values();
  }

  /** The texts `::` and `::1` are embedded addresses. */
  lemma NotUnspecified(text: string)
    requires Expand(text).Some? && |Expand(text).value| == 8 && !EmbedsIPv4(Expand(text).value)
    ensures text != "::" && text != "::1"
  {
    UnspecifiedExpands();
    LoopbackExpands();
    hide Expand;
  }

  lemma UnspecifiedExpands()
    ensures Expand("::").Some? && |Expand("::").value| == 8 && EmbedsIPv4(Expand("::").value)
  {
    hide Expand;
    var f := Compressed([], []);
    SpellingIsExpanded(f);
    assert Written(f) == "::";
  }

  lemma LoopbackExpands()
    ensures Expand("::1").Some? && |Expand("::1").value| == 8 && EmbedsIPv4(Expand("::1").value)
  {
    hide Expand, HexValue;
    var f := Compressed([], ["1"]);
    SpellingIsExpanded(f);
    assert Written(f) == "" + "::" + "1" == "::1";
    assert Meaning(f) == [] + Zeros(7) + [HexValue("1")];
  }

  lemma {:induction false} LeadingDigit(segment: string)
    requires segment != ""
    ensures HexValue(segment) >= HexDigit(segment[0])
  {
    if |segment| > 1 { LeadingDigit(segment[..|segment| - 1]); }
  }

  lemma ZeroLooksLikeNothing(first: string, rest: string, text: string, value: nat)
    requires StartsText(first, rest, text, value) && LooksPrivate(text)
    ensures value > 0
  {
    assert text[0] == 'f';
    LeadingDigit(first);
    hide HexValue;
  }

  /** Coverage: however it is spelled, an address in a private range is reported private. */
  lemma PrivateRangesAreCovered(ip: string)
    requires '.' !in ip && Expand(Lower(ip)).Some?
    ensures |Expand(Lower(ip)).value| == 8
    ensures InPrivateRange(Expand(Lower(ip)).value) ==> IsPrivateIPv6(ip)
  {
    hide Expand, IsPrivateIPv6, InPrivateRange, LooksPrivate;
    PrivateIff(ip);
  }
}
