/**
 * The text forms of section 2.2 of RFC 4291, and the two readers of
 * src/adapters/ip-validation.ts:90-233: the expander and the validator.
 */
module Ipv6Text {
  import opened Results
  import opened Strings
  import opened Ipv4

  // ---- Splitting ----

  predicate PairAt(s: string, p: int) {
    0 <= p < |s| - 1 && s[p] == ':' && s[p + 1] == ':'
  }

  /** The first double colon at or after a position. */
  function PairFrom(s: string, i: nat): (p: nat)
    requires i <= |s|
    ensures i <= p <= |s|
    ensures forall k :: i <= k < p ==> !PairAt(s, k)
    ensures p < |s| ==> PairAt(s, p)
    decreases |s| - i
  {
    if i == |s| || PairAt(s, i) then i else PairFrom(s, i + 1)
  }

  /** split('::'). */
  function Halves(s: string): (parts: seq<string>)
    ensures |parts| >= 1
    decreases |s|
  {
    var p := PairFrom(s, 0);
    if p == |s| then [s] else [s[..p]] + Halves(s[p + 2..])
  }

  /** split(':'), with no segments for no text. */
  function Segments(text: string): seq<string> {
    if text == "" then [] else Split(text, ':')
  }

  // ---- Hextets ----

  predicate IsHexDigit(c: char) {
    '0' <= c <= '9' || 'a' <= c <= 'f'
  }

  predicate IsHextet(segment: string) {
    1 <= |segment| <= 4 && forall i | 0 <= i < |segment| :: IsHexDigit(segment[i])
  }

  predicate AllHextets(segments: seq<string>) {
    forall i | 0 <= i < |segments| :: IsHextet(segments[i])
  }

  function HexDigit(c: char): (d: nat)
    ensures d < 16
  {
    if '0' <= c <= '9' then c as int - '0' as int
    else if 'a' <= c <= 'f' then c as int - 'a' as int + 10
    else 0
  }

  /** parseInt(segment, 16) of hexadecimal digits. */
  function HexValue(segment: string): nat {
    if segment == "" then 0
    else HexValue(segment[..|segment| - 1]) * 16 + HexDigit(segment[|segment| - 1])
  }

  /** The digits are these sixteen, with these values, and a hextet is their positional value. */
  lemma HextetAnswers(segment: string)
    ensures IsHextet(segment) <==> 1 <= |segment| <= 4 && forall i :: 0 <= i < |segment| ==> segment[i] in "0123456789abcdef"
    ensures forall d :: 0 <= d < 16 ==> HexDigit("0123456789abcdef"[d]) == d
    ensures |segment| > 0 ==> HexValue(segment) == 16 * HexValue(segment[..|segment| - 1]) + HexDigit(segment[|segment| - 1])
    ensures HexValue("") == 0
  {
    forall i | 0 <= i < |segment| ensures IsHexDigit(segment[i]) <==> segment[i] in "0123456789abcdef" {
      DigitIff(segment[i]);
    }
    hide IsHexDigit;
  }

  lemma DigitIff(c: char)
    ensures IsHexDigit(c) <==> c in "0123456789abcdef"
  {
    var digits := "0123456789abcdef";
    if '0' <= c <= '9' { assert digits[c as int - '0' as int] == c; }
    if 'a' <= c <= 'f' { assert digits[c as int - 'a' as int + 10] == c; }
  }

  function Values(segments: seq<string>): (values: seq<nat>)
    ensures |values| == |segments|
    ensures forall i :: 0 <= i < |segments| ==> values[i] == HexValue(segments[i])
  {
    seq(|segments|, i requires 0 <= i < |segments| => HexValue(segments[i]))
  }

  function Hextets(segments: seq<string>): Option<seq<nat>> {
    if AllHextets(segments) then Some(Values(segments)) else None
  }

  /** parseHextets. */
  method ParseHextets(segments: seq<string>) returns (parsed: Option<seq<nat>>)
    ensures parsed == Hextets(segments)
  {
    hide IsHextet, HexValue;
    var values: seq<nat> := [];
    for i := 0 to |segments|
      invariant AllHextets(segments[..i]) && values == Values(segments[..i])
    {
      var segment := segments[i];
      if !IsHextet(segment) {
        return None;
      }
      values := values + [HexValue(segment)];
    }
    assert segments[..|segments|] == segments;
    parsed := Some(values);
  }

  // ---- The expander ----

  function Zeros(n: nat): (zeros: seq<nat>)
    ensures |zeros| == n && forall i :: 0 <= i < n ==> zeros[i] == 0
  {
    seq(n, _ => 0)
  }

  /** expandIpv6Hextets. */
  function Expand(ip: string): Option<seq<nat>> {
    var halves := Halves(ip);
    if '.' in ip || |halves| > 2 then None
    else
      var left := Hextets(Segments(halves[0]));
      var right := if |halves| == 2 then Hextets(Segments(halves[1])) else Some([]);
      if left.None? || right.None? then None
      else
        var count := |left.value| + |right.value|;
        if |halves| == 1 && count != 8 then None
        else if |halves| == 2 && count >= 8 then None
        else Some(left.value + Zeros(if |halves| == 2 then 8 - count else 0) + right.value)
  }

  // ---- The validator ----

  predicate WithinCompressedBudget(segments: seq<string>, max: nat) {
    |segments| < max && AllHextets(segments)
  }

  /** hextetPrefixValid. */
  predicate HextetPrefixValid(prefix: string, max: nat) {
    if StartsWith(prefix, "::") then
      var rest := prefix[2..];
      if rest == "" then true
      else if StartsWith(rest, ":") then false
      else WithinCompressedBudget(Segments(rest), max)
    else if EndsWith(prefix, "::") then
      var before := prefix[..|prefix| - 2];
      if EndsWith(before, ":") then false
      else WithinCompressedBudget(Segments(before), max)
    else if PairFrom(prefix, 0) < |prefix| then
      var parts := Halves(prefix);
      if |parts| != 2 then false
      else WithinCompressedBudget(Segments(parts[0]) + Segments(parts[1]), max)
    else
      var parts := Split(prefix, ':');
      |parts| == max && AllHextets(parts)
  }

  /** toLowerCase on the letters that can matter. */
  function Lower(s: string): (r: string)
    ensures |r| == |s|
    ensures forall i :: 0 <= i < |s| ==> r[i] == if 'A' <= s[i] <= 'Z' then s[i] + 32 as char else s[i]
  {
    seq(|s|, i requires 0 <= i < |s| => if 'A' <= s[i] <= 'Z' then s[i] + 32 as char else s[i])
  }

  /** lastIndexOf(':'). */
  function LastColon(s: string): (p: nat)
    requires ':' in s
    ensures p < |s| && s[p] == ':' && ':' !in s[p + 1..]
  {
    if s[|s| - 1] == ':' then |s| - 1
    else
      assert s == s[..|s| - 1] + [s[|s| - 1]];
      LastColon(s[..|s| - 1])
  }

  /** isIPv6Address. */
  predicate IsIPv6Address(addr: string) {
    var lo := Lower(addr);
    if |addr| < 2 || ':' !in lo then false
    else
      var last := LastColon(lo);
      var tail, prefix := lo[last + 1..], lo[..last];
      if '.' in tail && ParsedIPv4(tail).Some? then
        HextetPrefixValid(if EndsWith(prefix, ":") then prefix + ":" else prefix, 6)
      else HextetPrefixValid(lo, 8)
  }

  // ---- The grammar ----

  /** All hextets written out, or two lists around one double colon. */
  datatype Spelling = Full(parts: seq<string>) | Compressed(left: seq<string>, right: seq<string>)

  /** A spelling of `max` hextets; the double colon stands for at least one. */
  predicate Spells(f: Spelling, max: nat) {
    match f
    case Full(parts) => |parts| == max && AllHextets(parts)
    case Compressed(left, right) => |left| + |right| < max && AllHextets(left) && AllHextets(right)
  }

  function Colons(parts: seq<string>): string {
    if parts == [] then "" else Join(parts, ':')
  }

  function Written(f: Spelling): string {
    match f
    case Full(parts) => Colons(parts)
    case Compressed(left, right) => Colons(left) + "::" + Colons(right)
  }

  function Meaning(f: Spelling): seq<nat>
    requires Spells(f, 8)
  {
    match f
    case Full(parts) => Values(parts)
    case Compressed(left, right) => Values(left) + Zeros(8 - |left| - |right|) + Values(right)
  }

  predicate IsTextChar(c: char) {
    IsHexDigit(c) || c == ':'
  }

  /** Text of hextets separated by single colons. */
  ghost predicate Plain(s: string) {
    && (forall i :: 0 <= i < |s| ==> IsTextChar(s[i]))
    && (forall i :: 0 <= i < |s| ==> !PairAt(s, i))
    && (s != "" ==> s[0] != ':' && s[|s| - 1] != ':')
  }

  lemma HextetIsPlain(segment: string)
    requires IsHextet(segment)
    ensures Plain(segment) && ':' !in segment && segment != ""
  {
  }

  lemma PlainCons(segment: string, rest: string)
    requires IsHextet(segment) && Plain(rest) && rest != ""
    ensures Plain(segment + [':'] + rest)
  {
    var s := segment + [':'] + rest;
    forall i | 0 <= i < |s| ensures !PairAt(s, i) && IsTextChar(s[i]) {
      if i > |segment| {
        assert s[i] == rest[i - |segment| - 1];
        assert !PairAt(rest, i - |segment| - 1);
      }
    }
  }

  lemma {:induction false} ColonsArePlain(parts: seq<string>)
    requires AllHextets(parts)
    ensures Plain(Colons(parts)) && (Colons(parts) == "" <==> parts == [])
    ensures Segments(Colons(parts)) == parts
  {
    if parts != [] {
      forall i | 0 <= i < |parts| ensures ':' !in parts[i] { HextetIsPlain(parts[i]); }
      SplitOfJoin(parts, ':');
      HextetIsPlain(parts[0]);
      if |parts| > 1 {
        ColonsArePlain(parts[1..]);
        PlainCons(parts[0], Colons(parts[1..]));
      }
    }
  }

  lemma PairIs(s: string, p: nat)
    requires p <= |s| && (p == |s| || PairAt(s, p))
    requires forall k :: 0 <= k < p ==> !PairAt(s, k)
    ensures PairFrom(s, 0) == p
  {
  }

  lemma PlainHasOneHalf(s: string)
    requires Plain(s)
    ensures PairFrom(s, 0) == |s| && Halves(s) == [s]
  {
    PairIs(s, |s|);
  }

  /** Plain text around a double colon is cut there and nowhere else. */
  lemma HalvesOfPair(left: string, right: string)
    requires Plain(left) && Plain(right)
    ensures PairFrom(left + "::" + right, 0) == |left|
    ensures Halves(left + "::" + right) == [left, right]
  {
    var s := left + "::" + right;
    forall k | 0 <= k < |left| ensures !PairAt(s, k) {
      assert !PairAt(left, k);
    }
    PairIs(s, |left|);
    PlainHasOneHalf(right);
    assert s[..|left|] == left && s[|left| + 2..] == right;
  }

  lemma FullIsExpanded(parts: seq<string>)
    requires |parts| == 8 && AllHextets(parts)
    ensures Expand(Colons(parts)) == Some(Values(parts))
  {
    hide Plain, AllHextets, PairFrom, Halves, Segments, Colons, Values;
    var text := Colons(parts);
    ColonsArePlain(parts);
    PlainHasOneHalf(text);
    PlainHasNoDot(text);
    assert Halves(text)[0] == text;
    assert Values(parts) + Zeros(0) + [] == Values(parts);
  }

  lemma CompressedIsExpanded(left: seq<string>, right: seq<string>)
    requires |left| + |right| < 8 && AllHextets(left) && AllHextets(right)
    ensures Expand(Colons(left) + "::" + Colons(right)) ==
      Some(Values(left) + Zeros(8 - |left| - |right|) + Values(right))
  {
    hide Plain, AllHextets, PairFrom, Halves, Segments, Colons, Values;
    var l, r := Colons(left), Colons(right);
    ColonsArePlain(left);
    ColonsArePlain(right);
    HalvesOfPair(l, r);
    PlainHasNoDot(l);
    PlainHasNoDot(r);
    var halves := Halves(l + "::" + r);
    assert halves[0] == l && halves[1] == r;
  }

  /** The expander reads every spelling, as what it means. */
  lemma SpellingIsExpanded(f: Spelling)
    requires Spells(f, 8)
    ensures Expand(Written(f)) == Some(Meaning(f))
  {
    hide AllHextets, Expand, Colons, Values;
    match f
    case Full(parts) => FullIsExpanded(parts);
    case Compressed(left, right) => CompressedIsExpanded(left, right);
  }

  lemma PlainHasNoDot(s: string)
    requires Plain(s)
    ensures '.' !in s
  {
  }

  lemma SegmentsRestore(text: string)
    ensures Colons(Segments(text)) == text
  {
    JoinOfSplit(text, ':');
  }

  lemma HalvesRestore(s: string)
    ensures |Halves(s)| == 1 ==> Halves(s)[0] == s
    ensures |Halves(s)| == 2 ==> s == Halves(s)[0] + "::" + Halves(s)[1]
  {
    var p := PairFrom(s, 0);
    if p < |s| {
      var rest := s[p + 2..];
      assert PairFrom(rest, 0) == |rest| ==> Halves(rest) == [rest];
      assert s == s[..p] + "::" + rest;
    }
  }

  /** Whatever is expanded is a spelling of its meaning. */
  lemma ExpandedIsSpelling(s: string) returns (f: Spelling)
    requires Expand(s).Some?
    ensures Spells(f, 8) && Written(f) == s && Meaning(f) == Expand(s).value
  {
    hide Halves, AllHextets, Split;
    var halves := Halves(s);
    HalvesRestore(s);
    SegmentsRestore(halves[0]);
    if |halves| == 1 {
      f := Full(Segments(halves[0]));
      assert Values(f.parts) + Zeros(0) + [] == Values(f.parts);
    } else {
      SegmentsRestore(halves[1]);
      f := Compressed(Segments(halves[0]), Segments(halves[1]));
    }
  }

  /** The expander is the grammar: exactly the spellings of eight hextets, with their meaning. */
  lemma ExpandIff(s: string, hextets: seq<nat>)
    ensures Expand(s) == Some(hextets) <==>
      exists f :: Spells(f, 8) && Written(f) == s && Meaning(f) == hextets
  {
    hide Expand, Spells, Written;
    if Expand(s) == Some(hextets) {
      var f := ExpandedIsSpelling(s);
    }
    forall f | Spells(f, 8) && Written(f) == s ensures Expand(s) == Some(Meaning(f)) {
      SpellingIsExpanded(f);
    }
  }

  /** What the expander returns is always eight hextets in range. */
  lemma ExpandedInRange(s: string)
    requires Expand(s).Some?
    ensures |Expand(s).value| == 8
    ensures forall i :: 0 <= i < 8 ==> Expand(s).value[i] <= 0xffff
  {
    var f := ExpandedIsSpelling(s);
    forall segment: string | IsHextet(segment) ensures HexValue(segment) <= 0xffff {
      HextetInRange(segment, 4);
    }
    hide Expand, IsHextet, HexValue;
  }

  lemma {:induction false} HextetInRange(segment: string, n: nat)
    requires |segment| <= n <= 4
    ensures HexValue(segment) < [1, 16, 256, 4096, 65536][n]
  {
    if segment != "" {
      HextetInRange(segment[..|segment| - 1], n - 1);
    }
  }

  // ---- The validator is the same grammar ----

  lemma SpellingIsValid(f: Spelling, max: nat)
    requires Spells(f, max) && max > 0
    ensures HextetPrefixValid(Written(f), max)
  {
    hide Halves, AllHextets, Split, Segments, PairFrom;
    match f
    case Full(parts) =>
      ColonsArePlain(parts);
      PlainText(Colons(parts));
      assert Split(Colons(parts), ':') == parts by { SegmentsAre(Colons(parts)); }
    case Compressed(left, right) =>
      ColonsArePlain(left);
      ColonsArePlain(right);
      CompressedIsValid(left, right, max);
  }

  lemma SegmentsAre(text: string)
    requires text != ""
    ensures Segments(text) == Split(text, ':')
  {
  }

  lemma PlainText(s: string)
    requires Plain(s) && s != ""
    ensures !StartsWith(s, "::") && !EndsWith(s, "::") && !StartsWith(s, ":") && !EndsWith(s, ":")
    ensures PairFrom(s, 0) == |s|
  {
    PlainHasOneHalf(s);
  }

  lemma AllHextetsConcat(a: seq<string>, b: seq<string>)
    ensures AllHextets(a + b) <==> AllHextets(a) && AllHextets(b)
  {
    hide IsHextet;
    assert forall i :: 0 <= i < |a| ==> (a + b)[i] == a[i];
    assert forall i :: 0 <= i < |b| ==> (a + b)[|a| + i] == b[i];
  }

  lemma EdgesOf(l: string, r: string)
    requires Plain(l) && Plain(r)
    ensures var s := l + "::" + r;
      && (StartsWith(s, "::") <==> l == "")
      && (EndsWith(s, "::") <==> r == "")
      && (l == "" ==> s[2..] == r && !StartsWith(r, ":"))
      && (r == "" ==> s[..|s| - 2] == l && !EndsWith(l, ":"))
  {
    hide PairAt, IsTextChar;
    var s := l + "::" + r;
    assert l != "" ==> s[0] == l[0];
    assert r != "" ==> s[|s| - 1] == r[|r| - 1];
    assert l == "" ==> s[..2] == "::";
    assert r == "" ==> s[|s| - 2..] == "::";
  }

  lemma CompressedIsValid(left: seq<string>, right: seq<string>, max: nat)
    requires Spells(Compressed(left, right), max)
    requires Plain(Colons(left)) && Segments(Colons(left)) == left && (Colons(left) == "" <==> left == [])
    requires Plain(Colons(right)) && Segments(Colons(right)) == right && (Colons(right) == "" <==> right == [])
    ensures HextetPrefixValid(Colons(left) + "::" + Colons(right), max)
  {
    hide Plain, Halves, AllHextets, Split, Segments, PairFrom, Colons, StartsWith, EndsWith;
    var l, r := Colons(left), Colons(right);
    EdgesOf(l, r);
    HalvesOfPair(l, r);
    AllHextetsConcat(left, right);
    assert |l| < |l + "::" + r|;
  }

  lemma NoHextets()
    ensures AllHextets([])
  {
  }

  /** Whatever is valid is a spelling. */
  lemma ValidIsSpelling(s: string, max: nat) returns (f: Spelling)
    requires HextetPrefixValid(s, max) && max > 0
    ensures Spells(f, max) && Written(f) == s
  {
    hide AllHextets, Split, PairFrom, Halves;
    assert AllHextets([]) by { NoHextets(); }
    if StartsWith(s, "::") {
      SegmentsRestore(s[2..]);
      f := Compressed([], Segments(s[2..]));
      assert s == "" + "::" + s[2..];
    } else if EndsWith(s, "::") {
      SegmentsRestore(s[..|s| - 2]);
      f := Compressed(Segments(s[..|s| - 2]), []);
      assert s == s[..|s| - 2] + "::" + "";
    } else if PairFrom(s, 0) < |s| {
      var parts := Halves(s);
      HalvesRestore(s);
      SegmentsRestore(parts[0]);
      SegmentsRestore(parts[1]);
      AllHextetsConcat(Segments(parts[0]), Segments(parts[1]));
      f := Compressed(Segments(parts[0]), Segments(parts[1]));
    } else {
      JoinOfSplit(s, ':');
      f := Full(Split(s, ':'));
    }
  }

  ghost predicate Spelled(s: string, max: nat) {
    exists f :: Spells(f, max) && Written(f) == s
  }

  lemma ValidIff(s: string, max: nat)
    requires max > 0
    ensures HextetPrefixValid(s, max) <==> Spelled(s, max)
  {
    hide HextetPrefixValid, Spells, Written;
    if HextetPrefixValid(s, max) {
      var f := ValidIsSpelling(s, max);
    }
    forall f | Spells(f, max) && Written(f) == s ensures HextetPrefixValid(s, max) {
      SpellingIsValid(f, max);
    }
  }

  /** Every spelling of more than one hextet holds a colon, and no dot. */
  lemma SpellingShape(f: Spelling, max: nat)
    requires Spells(f, max) && max > 1
    ensures |Written(f)| >= 2 && ':' in Written(f) && '.' !in Written(f)
    ensures Written(f)[|Written(f)| - 1] == ':' <==> f.Compressed? && f.right == []
  {
    hide AllHextets;
    match f
    case Full(parts) =>
      ColonsArePlain(parts);
      PlainHasNoDot(Colons(parts));
      assert Colons(parts) == parts[0] + [':'] + Join(parts[1..], ':');
      assert Colons(parts)[|parts[0]|] == ':';
      assert |Colons(parts)| >= 2;
    case Compressed(left, right) =>
      ColonsArePlain(left);
      ColonsArePlain(right);
      PlainHasNoDot(Colons(left));
      PlainHasNoDot(Colons(right));
      assert Written(f)[|Colons(left)|] == ':';
      assert right != [] ==> Written(f)[|Written(f)| - 1] == Colons(right)[|Colons(right)| - 1];
  }

  lemma LastColonIs(s: string, p: nat)
    requires p < |s| && s[p] == ':' && ':' !in s[p + 1..]
    ensures ':' in s && LastColon(s) == p
  {
    var q := LastColon(s);
    assert forall k :: p < k < |s| ==> s[k] == s[p + 1..][k - p - 1];
    assert forall k :: q < k < |s| ==> s[k] == s[q + 1..][k - q - 1];
  }

  lemma IPv4HasNoColon(tail: string)
    requires ParsedIPv4(tail).Some?
    ensures ':' !in tail && '.' in tail
  {
    var parts := Split(tail, '.');
    JoinOfSplit(tail, '.');
    SplitParts(tail, '.');
    forall i | 0 <= i < 4 ensures ':' !in parts[i] {}
    assert tail == Join(parts, '.');
    hide Split, ParsedIPv4;
    JoinKeepsOut(parts, '.', ':');
  }

  lemma {:induction false} JoinKeepsOut(parts: seq<string>, c: char, d: char)
    requires parts != [] && c != d && forall i :: 0 <= i < |parts| ==> d !in parts[i]
    ensures d !in Join(parts, c)
  {
    if |parts| > 1 { JoinKeepsOut(parts[1..], c, d); }
  }

  /** A spelling of six hextets and an IPv4 tail, set off by one colon after a hextet. */
  function Tailed(f: Spelling, tail: string): string {
    if f.Compressed? && f.right == [] then Written(f) + tail else Written(f) + ":" + tail
  }

  ghost predicate SpelledWithTail(s: string) {
    exists f, tail :: Spells(f, 6) && ParsedIPv4(tail).Some? && Tailed(f, tail) == s
  }

  /** The branch of the validator for a dotted tail. */
  predicate TailValid(lo: string)
    requires ':' in lo
  {
    var last := LastColon(lo);
    var tail, prefix := lo[last + 1..], lo[..last];
    && ParsedIPv4(tail).Some?
    && HextetPrefixValid(if EndsWith(prefix, ":") then prefix + ":" else prefix, 6)
  }

  lemma EndsWithColon(s: string)
    ensures EndsWith(s, ":") <==> s != "" && s[|s| - 1] == ':'
  {
    if s != "" { assert s[|s| - 1..] == [s[|s| - 1]]; }
  }

  lemma TailValidIsSpelled(lo: string)
    requires ':' in lo && TailValid(lo)
    ensures SpelledWithTail(lo)
  {
    hide HextetPrefixValid, ParsedIPv4, Spells, Written;
    var last := LastColon(lo);
    var tail, prefix := lo[last + 1..], lo[..last];
    assert lo == prefix + ":" + tail;
    var text := if EndsWith(prefix, ":") then prefix + ":" else prefix;
    var f := ValidIsSpelling(text, 6);
    SpellingShape(f, 6);
    assert lo == (prefix + ":") + tail;
    EndsWithColon(prefix);
    assert Tailed(f, tail) == lo;
  }

  lemma TailedEnds(f: Spelling, tail: string)
    requires Spells(f, 6)
    ensures var lo, last := Tailed(f, tail), |Tailed(f, tail)| - |tail| - 1;
      && last >= 0 && lo[last] == ':' && lo[last + 1..] == tail
      && (if EndsWith(lo[..last], ":") then lo[..last] + ":" else lo[..last]) == Written(f)
  {
    hide Spells, Written, EndsWith;
    SpellingShape(f, 6);
    var lo, text := Tailed(f, tail), Written(f);
    var prefix := lo[..|lo| - |tail| - 1];
    EndsWithColon(prefix);
    if f.Compressed? && f.right == [] {
      CompressedEndsTwice(f);
      assert prefix == text[..|text| - 1];
      assert text == prefix + ":";
    } else {
      assert prefix == text;
    }
  }

  lemma SpelledTailIsValid(f: Spelling, tail: string)
    requires Spells(f, 6) && ParsedIPv4(tail).Some?
    ensures ':' in Tailed(f, tail) && TailValid(Tailed(f, tail))
    ensures '.' in Tailed(f, tail)[LastColon(Tailed(f, tail)) + 1..]
  {
    hide HextetPrefixValid, ParsedIPv4, Spells, Written, Tailed, EndsWith;
    SpellingIsValid(f, 6);
    IPv4HasNoColon(tail);
    TailedEnds(f, tail);
    LastColonIs(Tailed(f, tail), |Tailed(f, tail)| - |tail| - 1);
  }

  lemma CompressedEndsTwice(f: Spelling)
    requires f.Compressed? && f.right == []
    ensures |Written(f)| >= 2 && Written(f)[|Written(f)| - 2] == ':' && Written(f)[|Written(f)| - 1] == ':'
  {
  }

  /**
   * The validator is the grammar of section 2.2 of RFC 4291: it accepts exactly the texts
   * that spell eight hextets, or six and a dotted IPv4 address, in either letter case.
   */
  lemma IsIPv6AddressIff(addr: string)
    ensures IsIPv6Address(addr) <==> Spelled(Lower(addr), 8) || SpelledWithTail(Lower(addr))
  {
    hide HextetPrefixValid, ParsedIPv4, Spells, Written, Tailed;
    var lo := Lower(addr);
    if Spelled(lo, 8) {
      var f :| Spells(f, 8) && Written(f) == lo;
      SpellingShape(f, 8);
    }
    ValidIff(lo, 8);
    if SpelledWithTail(lo) {
      var f, tail :| Spells(f, 6) && ParsedIPv4(tail).Some? && Tailed(f, tail) == lo;
      SpelledTailIsValid(f, tail);
      LongEnough(lo);
    }
    if ':' in lo && TailValid(lo) {
      TailValidIsSpelled(lo);
    }
  }

  lemma LongEnough(lo: string)
    requires ':' in lo && TailValid(lo)
    ensures |lo| >= 2
  {
    hide HextetPrefixValid;
    IPv4HasNoColon(lo[LastColon(lo) + 1..]);
  }

  /**
   * The two readers agree: on text without a dot the validator accepts exactly what the
   * expander expands.
   */
  lemma TwoReadersAgree(addr: string)
    requires '.' !in addr
    ensures IsIPv6Address(addr) <==> Expand(Lower(addr)).Some?
  {
    hide HextetPrefixValid, ParsedIPv4, Spells, Written, Expand;
    var lo := Lower(addr);
    IsIPv6AddressIff(addr);
    assert !SpelledWithTail(lo) by {
      forall f, tail | Spells(f, 6) && ParsedIPv4(tail).Some? ensures Tailed(f, tail) != lo {
        IPv4HasNoColon(tail);
        var i :| 0 <= i < |tail| && tail[i] == '.';
        assert Tailed(f, tail)[|Tailed(f, tail)| - |tail| + i] == '.';
      }
    }
    if Spelled(lo, 8) {
      var f :| Spells(f, 8) && Written(f) == lo;
      SpellingIsExpanded(f);
    }
    if Expand(lo).Some? {
      var f := ExpandedIsSpelling(lo);
    }
  }
}
