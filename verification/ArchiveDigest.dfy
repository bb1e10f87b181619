/**
 * The archive content digest (src/archive/content-digest.ts:43-108) over length-framed parts
 * (src/shared/hashing.ts:77-85). Texts are their UTF-8 bytes, one character a byte.
 */
module ArchiveDigest {
  import opened Results
  import opened PaddedKeys

  // ---- Framing ----

  /** The bytes hashed for a list of parts: each preceded by its length and a colon. */
  function Framed(parts: seq<string>): string {
    if parts == [] then "" else Decimal(|parts[0]|) + ([':'] + (parts[0] + Framed(parts[1..])))
  }

  lemma ColonAfter(a: string, x: string)
    requires ':' !in a
    ensures var s := a + ([':'] + x);
      s[|a|] == ':' && s[..|a|] == a && s[|a| + 1..] == x && forall k :: 0 <= k < |a| ==> s[k] != ':'
  {
  }

  lemma FirstColon(a: string, b: string, x: string, y: string)
    requires ':' !in a && ':' !in b && a + ([':'] + x) == b + ([':'] + y)
    ensures a == b && x == y
  {
    ColonAfter(a, x);
    ColonAfter(b, y);
  }

  /** Different lists of parts are framed differently: boundaries cannot be moved. */
  lemma {:induction false} FramingIsInjective(a: seq<string>, b: seq<string>)
    requires Framed(a) == Framed(b)
    ensures a == b
  {
    if a != [] && b != [] {
      var n, m := |a[0]|, |b[0]|;
      var x, y := a[0] + Framed(a[1..]), b[0] + Framed(b[1..]);
      DecimalIsRead(n);
      DecimalIsRead(m);
      FirstColon(Decimal(n), Decimal(m), x, y);
      assert n == DecimalValue(Decimal(n)) == m;
      assert x[..n] == a[0] && y[..m] == b[0];
      assert x[n..] == Framed(a[1..]) && y[m..] == Framed(b[1..]);
      FramingIsInjective(a[1..], b[1..]);
      assert a == [a[0]] + a[1..] && b == [b[0]] + b[1..];
    }
  }

  /** SHA-256, free of collisions. */
  datatype Digest = Sha256(bytes: string)

  /** hashParts. */
  function HashParts(parts: seq<string>): Digest {
    Sha256(Framed(parts))
  }

  // ---- Sorting ----

  predicate LexLeq(a: string, b: string) {
    a == b || LexLess(a, b)
  }

  lemma {:induction false} LexTotal(a: string, b: string)
    ensures LexLeq(a, b) || LexLess(b, a)
    ensures !(LexLess(a, b) && LexLess(b, a))
  {
    if a != [] && b != [] && a[0] == b[0] {
      LexTotal(a[1..], b[1..]);
      assert a == [a[0]] + a[1..] && b == [b[0]] + b[1..];
    }
  }

  function Insert(x: string, sorted: seq<string>): seq<string> {
    if sorted == [] then [x]
    else if LexLess(sorted[0], x) then [sorted[0]] + Insert(x, sorted[1..])
    else [x] + sorted
  }

  /** The default sort of strings. */
  function Sort(xs: seq<string>): seq<string> {
    if xs == [] then [] else Insert(xs[0], Sort(xs[1..]))
  }

  ghost predicate Sorted(xs: seq<string>) {
    forall i, j :: 0 <= i < j < |xs| ==> LexLeq(xs[i], xs[j])
  }

  lemma LexLeqTransitive(a: string, b: string, c: string)
    requires LexLeq(a, b) && LexLeq(b, c)
    ensures LexLeq(a, c)
  {
    if LexLess(a, b) && LexLess(b, c) { LexLessTransitive(a, b, c); }
  }

  lemma SortedCons(x: string, xs: seq<string>)
    requires Sorted(xs) && (forall y :: y in xs ==> LexLeq(x, y))
    ensures Sorted([x] + xs)
  {
    hide LexLeq;
  }

  lemma {:induction false} InsertSorts(x: string, sorted: seq<string>)
    requires Sorted(sorted)
    ensures Sorted(Insert(x, sorted)) && multiset(Insert(x, sorted)) == multiset(sorted) + multiset{x}
  {
    if sorted != [] {
      var head, tail := sorted[0], sorted[1..];
      assert sorted == [head] + tail;
      LexTotal(head, x);
      assert Sorted(tail);
      if LexLess(head, x) {
        InsertSorts(x, tail);
        forall y | y in Insert(x, tail) ensures LexLeq(head, y) {
          assert y in multiset(Insert(x, tail));
          assert y == x || y in tail;
        }
        hide Sorted, LexLeq;
        SortedCons(head, Insert(x, tail));
      } else {
        LexTotal(x, head);
        forall y | y in sorted ensures LexLeq(x, y) {
          if y in tail { LexLeqTransitive(x, head, y); }
        }
        hide Sorted, LexLeq;
        SortedCons(x, sorted);
      }
    }
  }

  lemma {:induction false} SortSorts(xs: seq<string>)
    ensures Sorted(Sort(xs)) && multiset(Sort(xs)) == multiset(xs)
  {
    if xs != [] {
      SortSorts(xs[1..]);
      hide Sorted;
      InsertSorts(xs[0], Sort(xs[1..]));
      assert xs == [xs[0]] + xs[1..];
    }
  }

  lemma SmallestIsFirst(a: seq<string>, b: seq<string>)
    requires Sorted(a) && a != [] && b != [] && multiset(a) == multiset(b)
    ensures LexLeq(a[0], b[0])
  {
    assert b[0] in multiset(b);
    assert b[0] in a;
  }

  /** A multiset of strings has one sorted arrangement. */
  lemma {:induction false} SortedUnique(a: seq<string>, b: seq<string>)
    requires Sorted(a) && Sorted(b) && multiset(a) == multiset(b)
    ensures a == b
  {
    assert |multiset(a)| == |a| && |multiset(b)| == |b|;
    if a != [] {
      SmallestIsFirst(a, b);
      SmallestIsFirst(b, a);
      LexTotal(a[0], b[0]);
      assert a == [a[0]] + a[1..] && b == [b[0]] + b[1..];
      assert multiset(a[1..]) == multiset(a) - multiset{a[0]};
      assert multiset(b[1..]) == multiset(b) - multiset{b[0]};
      SortedUnique(a[1..], b[1..]);
    }
  }

  // ---- The digest ----

  /** The integrity-covered manifest fields. */
  datatype Header = Header(
    schemaVersion: string,
    layoutVersion: int,
    sessionId: string,
    fingerprint: string,
    policyMode: string,
    discoveryDigest: Option<string>,
    auditChainHead: string,
    auditEventCount: int)

  datatype Manifest = Manifest(header: Header, includedFiles: seq<string>, fileDigests: map<string, string>)

  /** Canonical JSON of a header: different headers have different texts. */
  ghost predicate Canonical(json: Header -> string) {
    forall a, b :: json(a) == json(b) ==> a == b
  }

  predicate HasDigest(m: Manifest, file: string) {
    file in m.fileDigests && m.fileDigests[file] != ""
  }

  /** The digest of each included file in order, or the first file without one. */
  function FileDigests(m: Manifest, files: seq<string>): Result<seq<string>, string> {
    if files == [] then Ok([])
    else if !HasDigest(m, files[0]) then Err(files[0])
    else
      match FileDigests(m, files[1..])
      case Err(file) => Err(file)
      case Ok(rest) => Ok([m.fileDigests[files[0]]] + rest)
  }

  /** computeArchiveContentDigest. */
  function ComputeArchiveContentDigest(m: Manifest, json: Header -> string): Result<Digest, string> {
    match FileDigests(m, m.includedFiles)
    case Err(file) => Err(file)
    case Ok(digests) => Ok(HashParts([json(m.header)] + Sort(digests)))
  }

  lemma {:induction false} MissingDigest(m: Manifest, files: seq<string>)
    ensures FileDigests(m, files).Ok? <==> forall file :: file in files ==> HasDigest(m, file)
    ensures FileDigests(m, files).Err? ==> FileDigests(m, files).error in files && !HasDigest(m, FileDigests(m, files).error)
  {
    if files != [] {
      MissingDigest(m, files[1..]);
      assert files == [files[0]] + files[1..];
    }
  }

  /** The manifest holds no digest of the i-th included file, or an empty one. */
  predicate Lacks(m: Manifest, i: nat)
    requires i < |m.includedFiles|
  {
    m.includedFiles[i] !in m.fileDigests || m.fileDigests[m.includedFiles[i]] == ""
  }

  /** A digest exists exactly when every included file has one that is not empty; otherwise the first without is named. */
  lemma DigestExistsIff(m: Manifest, json: Header -> string)
    ensures ComputeArchiveContentDigest(m, json).Ok? <==> forall i :: 0 <= i < |m.includedFiles| ==> !Lacks(m, i)
    ensures forall i :: 0 <= i < |m.includedFiles| && Lacks(m, i) && (forall j :: 0 <= j < i ==> !Lacks(m, j)) ==>
      ComputeArchiveContentDigest(m, json) == Err(m.includedFiles[i])
  {
    MissingDigest(m, m.includedFiles);
    assert forall i :: 0 <= i < |m.includedFiles| ==> (Lacks(m, i) <==> !HasDigest(m, m.includedFiles[i]));
    hide HasDigest;
    forall i | 0 <= i < |m.includedFiles| && Lacks(m, i) && (forall j :: 0 <= j < i ==> !Lacks(m, j))
      ensures ComputeArchiveContentDigest(m, json) == Err(m.includedFiles[i])
    {
      FirstMissing(m, m.includedFiles, i);
    }
  }

  lemma {:induction false} FirstMissing(m: Manifest, files: seq<string>, i: nat)
    requires i < |files| && !HasDigest(m, files[i]) && forall j :: 0 <= j < i ==> HasDigest(m, files[j])
    ensures FileDigests(m, files) == Err(files[i])
  {
    if i > 0 { FirstMissing(m, files[1..], i - 1); }
  }

  /** Two archives have the same digest exactly when they agree on every covered field and on the multiset of file digests. */
  lemma DigestPins(m: Manifest, other: Manifest, json: Header -> string)
    requires Canonical(json)
    requires ComputeArchiveContentDigest(m, json).Ok? && ComputeArchiveContentDigest(other, json).Ok?
    ensures ComputeArchiveContentDigest(m, json) == ComputeArchiveContentDigest(other, json) <==>
      && m.header == other.header
      && multiset(FileDigests(m, m.includedFiles).value) == multiset(FileDigests(other, other.includedFiles).value)
  {
    hide FileDigests, Sort, Framed, Sorted;
    var a, b := FileDigests(m, m.includedFiles).value, FileDigests(other, other.includedFiles).value;
    SortSorts(a);
    SortSorts(b);
    var x, y := [json(m.header)] + Sort(a), [json(other.header)] + Sort(b);
    if Framed(x) == Framed(y) {
      FramingIsInjective(x, y);
      assert x[0] == y[0] && x[1..] == Sort(a) && y[1..] == Sort(b);
    }
    if multiset(a) == multiset(b) {
      SortedUnique(Sort(a), Sort(b));
    }
  }

  function DigestOf(m: Manifest, file: string): string {
    if file in m.fileDigests then m.fileDigests[file] else ""
  }

  function DigestsOf(m: Manifest, files: seq<string>): seq<string> {
    if files == [] then [] else [DigestOf(m, files[0])] + DigestsOf(m, files[1..])
  }

  lemma {:induction false} DigestAt(m: Manifest, files: seq<string>, i: nat)
    requires i < |files|
    ensures |DigestsOf(m, files)| == |files| && DigestsOf(m, files)[i] == DigestOf(m, files[i])
  {
    if |files| > 1 { DigestAt(m, files[1..], if i == 0 then 0 else i - 1); }
  }

  lemma {:induction false} DigestsOfConcat(m: Manifest, a: seq<string>, b: seq<string>)
    ensures DigestsOf(m, a + b) == DigestsOf(m, a) + DigestsOf(m, b)
  {
    hide DigestOf;
    if a == [] {
      assert a + b == b;
    } else {
      assert (a + b)[1..] == a[1..] + b;
      DigestsOfConcat(m, a[1..], b);
    }
  }

  lemma {:induction false} FileDigestsAre(m: Manifest, files: seq<string>)
    requires FileDigests(m, files).Ok?
    ensures FileDigests(m, files).value == DigestsOf(m, files)
  {
    if files != [] {
      FileDigestsAre(m, files[1..]);
    }
  }

  lemma Around(left: seq<string>, x: string, right: seq<string>)
    ensures multiset(left + ([x] + right)) == multiset(left + right) + multiset{x}
  {
  }

  lemma DigestsAround(m: Manifest, left: seq<string>, x: string, right: seq<string>)
    ensures multiset(DigestsOf(m, left + ([x] + right))) == multiset(DigestsOf(m, left + right)) + multiset{DigestOf(m, x)}
  {
    assert DigestsOf(m, [x]) == [DigestOf(m, x)];
    hide DigestOf, DigestsOf;
    DigestsOfConcat(m, left, right);
    DigestsOfConcat(m, left, [x] + right);
    DigestsOfConcat(m, [x], right);
    Around(DigestsOf(m, left), DigestOf(m, x), DigestsOf(m, right));
  }

  lemma {:induction false} PermutedDigests(m: Manifest, f: seq<string>, g: seq<string>)
    requires multiset(f) == multiset(g)
    ensures multiset(DigestsOf(m, f)) == multiset(DigestsOf(m, g))
  {
    hide DigestOf, DigestsOf;
    if f == [] {
      assert |multiset(g)| == |g| == 0;
    } else {
      var x := f[0];
      assert x in multiset(g);
      var k :| 0 <= k < |g| && g[k] == x;
      var left, right := g[..k], g[k + 1..];
      assert g == left + ([x] + right);
      assert f == [] + ([x] + f[1..]) && [] + f[1..] == f[1..];
      Around([], x, f[1..]);
      Around(left, x, right);
      DigestsAround(m, [], x, f[1..]);
      DigestsAround(m, left, x, right);
      CancelOne(multiset(f[1..]), multiset(left + right), x);
      PermutedDigests(m, f[1..], left + right);
    }
  }

  lemma CancelOne(a: multiset<string>, b: multiset<string>, x: string)
    requires a + multiset{x} == b + multiset{x}
    ensures a == b
  {
    assert a == (a + multiset{x}) - multiset{x};
    assert b == (b + multiset{x}) - multiset{x};
  }

  /** The same multiset of digests gives the same sorted list. */
  lemma SortOfPermutation(a: seq<string>, b: seq<string>)
    requires multiset(a) == multiset(b)
    ensures Sort(a) == Sort(b)
  {
    hide Sort, Sorted;
    SortSorts(a);
    SortSorts(b);
    SortedUnique(Sort(a), Sort(b));
  }

  /** The order of the included files does not matter. */
  lemma OrderDoesNotMatter(m: Manifest, files: seq<string>, json: Header -> string)
    requires multiset(files) == multiset(m.includedFiles)
    requires ComputeArchiveContentDigest(m, json).Ok?
    ensures ComputeArchiveContentDigest(m.(includedFiles := files), json) == ComputeArchiveContentDigest(m, json)
  {
    var other := m.(includedFiles := files);
    MissingDigest(m, m.includedFiles);
    forall file | file in files ensures HasDigest(other, file) {
      assert file in multiset(files);
      assert file in m.includedFiles;
    }
    MissingDigest(other, files);
    hide FileDigests, Sort, DigestOf, DigestsOf, HasDigest;
    FileDigestsAre(m, m.includedFiles);
    FileDigestsAre(other, files);
    PermutedDigests(m, m.includedFiles, files);
    SameDigests(m, other, files);
    SortOfPermutation(DigestsOf(m, m.includedFiles), DigestsOf(m, files));
  }

  lemma {:induction false} SameDigests(m: Manifest, other: Manifest, files: seq<string>)
    requires m.fileDigests == other.fileDigests
    ensures DigestsOf(m, files) == DigestsOf(other, files)
  {
    if files != [] { SameDigests(m, other, files[1..]); }
  }

  lemma ExchangedMultiset(a: seq<string>, i: nat, j: nat)
    requires i < j < |a|
    ensures multiset(a[i := a[j]][j := a[i]]) == multiset(a)
  {
  }

  /** Which file has which digest is not covered: two files may exchange their contents unnoticed. */
  lemma ContentsMayBeExchanged(m: Manifest, json: Header -> string, i: nat, j: nat)
    requires ComputeArchiveContentDigest(m, json).Ok? && i < j < |m.includedFiles|
    requires Distinct(m.includedFiles)
    ensures var f := m.includedFiles;
      var exchanged := m.fileDigests[f[i] := DigestOf(m, f[j])][f[j] := DigestOf(m, f[i])];
      ComputeArchiveContentDigest(m.(fileDigests := exchanged), json) == ComputeArchiveContentDigest(m, json)
  {
    var f := m.includedFiles;
    var other := m.(fileDigests := m.fileDigests[f[i] := DigestOf(m, f[j])][f[j] := DigestOf(m, f[i])]);
    MissingDigest(m, f);
    ExchangedHaveDigests(m, other, i, j);
    MissingDigest(other, f);
    hide FileDigests, Sort, HasDigest, DigestsOf, DigestOf, Distinct;
    FileDigestsAre(m, f);
    FileDigestsAre(other, f);
    ExchangedDigests(m, other, i, j);
    ExchangedMultiset(DigestsOf(m, f), i, j);
    SortOfPermutation(DigestsOf(m, f), DigestsOf(other, f));
  }

  lemma ExchangedHaveDigests(m: Manifest, other: Manifest, i: nat, j: nat)
    requires i < j < |m.includedFiles|
    requires forall file :: file in m.includedFiles ==> HasDigest(m, file)
    requires var f := m.includedFiles;
      other == m.(fileDigests := m.fileDigests[f[i] := DigestOf(m, f[j])][f[j] := DigestOf(m, f[i])])
    ensures forall file :: file in m.includedFiles ==> HasDigest(other, file)
  {
    var f := m.includedFiles;
    assert HasDigest(m, f[i]) && HasDigest(m, f[j]);
    forall file | file in f ensures HasDigest(other, file) {
      assert HasDigest(m, file);
    }
  }

  ghost predicate Distinct(files: seq<string>) {
    forall k, l :: 0 <= k < l < |files| ==> files[k] != files[l]
  }

  lemma ExchangedAt(m: Manifest, other: Manifest, i: nat, j: nat, k: nat)
    requires i < j < |m.includedFiles| && k < |m.includedFiles| && Distinct(m.includedFiles)
    requires var f := m.includedFiles;
      other == m.(fileDigests := m.fileDigests[f[i] := DigestOf(m, f[j])][f[j] := DigestOf(m, f[i])])
    ensures var f := m.includedFiles;
      DigestOf(other, f[k]) == DigestOf(m, f[if k == i then j else if k == j then i else k])
  {
    var f := m.includedFiles;
    assert k != i ==> f[k] != f[i];
    assert k != j ==> f[k] != f[j];
  }

  lemma ExchangedDigests(m: Manifest, other: Manifest, i: nat, j: nat)
    requires i < j < |m.includedFiles| && Distinct(m.includedFiles)
    requires var f := m.includedFiles;
      other == m.(fileDigests := m.fileDigests[f[i] := DigestOf(m, f[j])][f[j] := DigestOf(m, f[i])])
    ensures var f := m.includedFiles; var a := DigestsOf(m, f);
      |a| == |f| && DigestsOf(other, f) == a[i := a[j]][j := a[i]]
  {
    hide DigestsOf, DigestOf, Distinct;
    var f := m.includedFiles;
    var a, b := DigestsOf(m, f), DigestsOf(other, f);
    DigestAt(m, f, i);
    DigestAt(m, f, j);
    DigestAt(other, f, i);
    forall k: nat | k < |f| ensures b[k] == a[i := a[j]][j := a[i]][k] {
      DigestAt(m, f, k);
      DigestAt(other, f, k);
      ExchangedAt(m, other, i, j, k);
    }
  }
}
