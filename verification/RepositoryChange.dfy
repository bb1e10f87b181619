/**
 * Parsing a Git patch into its changes, selecting some of them and printing them back
 * (src/adapters/repository-change.ts).
 */
module RepositoryChange {
  import opened Results
  import opened Strings
  import opened GitHeader

  // ---- Sections ----

  /** A section starts here: the marker at the start of a line other than the first. */
  predicate Boundary(s: string, q: int) {
    0 < q < |s| && IsLineTerminator(s[q - 1]) && StartsWith(s[q..], Marker)
  }

  function NextBoundary(s: string, q: nat): (b: nat)
    requires q <= |s|
    ensures q <= b <= |s|
    ensures forall k :: q <= k < b ==> !Boundary(s, k)
    ensures b < |s| ==> Boundary(s, b)
    decreases |s| - q
  {
    if q == |s| || Boundary(s, q) then q else NextBoundary(s, q + 1)
  }

  /** The text cut at every boundary. */
  function Sections(s: string): (parts: seq<string>)
    ensures s != "" ==> parts != []
    decreases |s|
  {
    if s == "" then []
    else
      var b := NextBoundary(s, 1);
      [s[..b]] + Sections(s[b..])
  }

  function Concat(parts: seq<string>): string {
    if parts == [] then "" else parts[0] + Concat(parts[1..])
  }

  /** A piece that is one section wherever it stands among others. */
  ghost predicate Whole(part: string) {
    part != "" && forall q :: 0 < q < |part| ==> !Boundary(part, q)
  }

  /** Pieces a patch is cut into: whole, marked, and all but the last ending a line. */
  ghost predicate WellCut(parts: seq<string>) {
    && (forall i :: 0 <= i < |parts| ==> Whole(parts[i]) && StartsWith(parts[i], Marker))
    && (forall i :: 0 <= i < |parts| - 1 ==> IsLineTerminator(parts[i][|parts[i]| - 1]))
  }

  lemma {:induction false} SectionsRestore(s: string)
    ensures Concat(Sections(s)) == s
    decreases |s|
  {
    if s != "" {
      var b := NextBoundary(s, 1);
      SectionsRestore(s[b..]);
      assert s == s[..b] + s[b..];
    }
  }

  lemma MarkerHasNoTerminator(k: nat)
    requires k < |Marker|
    ensures !IsLineTerminator(Marker[k])
  {
  }

  /** Inside a piece, what follows the piece makes no boundary. */
  lemma NoBoundaryInside(part: string, rest: string, q: nat)
    requires Whole(part) && 0 < q < |part|
    requires rest == "" || IsLineTerminator(part[|part| - 1])
    ensures !Boundary(part + rest, q)
  {
    var s := part + rest;
    assert s[q..] == part[q..] + rest;
    assert !Boundary(part, q);
    if q + |Marker| <= |part| {
      assert s[q..][..|Marker|] == part[q..][..|Marker|];
    } else if |Marker| <= |s| - q {
      var k := |part| - 1 - q;
      MarkerHasNoTerminator(k);
      assert s[q..][..|Marker|][k] == part[|part| - 1];
    }
  }

  lemma NextIs(s: string, n: nat)
    requires 0 < n <= |s| && (n == |s| || Boundary(s, n))
    requires forall q :: 0 < q < n ==> !Boundary(s, q)
    ensures NextBoundary(s, 1) == n
  {
    hide Boundary;
  }

  lemma CutAt(part: string, rest: string)
    requires Whole(part)
    requires rest != "" ==> IsLineTerminator(part[|part| - 1]) && StartsWith(rest, Marker)
    ensures Sections(part + rest) == [part] + Sections(rest)
  {
    var s := part + rest;
    forall q | 0 < q < |part| ensures !Boundary(s, q) {
      NoBoundaryInside(part, rest, q);
    }
    assert s[..|part|] == part && s[|part|..] == rest;
    assert part != "" && (|part| == |s| || Boundary(s, |part|));
    hide Boundary, Whole, NextBoundary;
    NextIs(s, |part|);
  }

  lemma WellCutTail(parts: seq<string>)
    requires WellCut(parts) && parts != []
    ensures WellCut(parts[1..])
    ensures Whole(parts[0]) && StartsWith(parts[0], Marker)
    ensures parts[1..] != [] ==> IsLineTerminator(parts[0][|parts[0]| - 1])
  {
    hide Whole, StartsWith, IsLineTerminator;
    var rest := parts[1..];
    assert forall i :: 0 <= i < |rest| ==> rest[i] == parts[i + 1];
  }

  lemma ConcatStarts(parts: seq<string>)
    requires parts != [] && StartsWith(parts[0], Marker)
    ensures StartsWith(Concat(parts), Marker)
  {
    assert (parts[0] + Concat(parts[1..]))[..|Marker|] == parts[0][..|Marker|];
  }

  /** Pieces put together are cut where they meet and nowhere else. */
  lemma {:induction false} SectionsOfConcat(parts: seq<string>)
    requires WellCut(parts)
    ensures Sections(Concat(parts)) == parts
  {
    if parts != [] {
      var rest := parts[1..];
      assert parts == [parts[0]] + rest;
      WellCutTail(parts);
      hide WellCut, Whole, StartsWith, IsLineTerminator, Sections;
      SectionsOfConcat(rest);
      if rest != [] {
        WellCutNonempty(rest);
        ConcatStarts(rest);
      }
      CutAt(parts[0], Concat(rest));
    }
  }

  lemma WellCutNonempty(parts: seq<string>)
    requires WellCut(parts) && parts != []
    ensures StartsWith(parts[0], Marker)
  {
  }

  lemma PrefixBoundary(s: string, b: nat, q: nat)
    requires b <= |s| && Boundary(s[..b], q)
    ensures Boundary(s, q)
  {
    assert s[q..][..|Marker|] == s[..b][q..][..|Marker|];
  }

  /** The first piece of a marked text. */
  lemma FirstIsWhole(s: string)
    requires StartsWith(s, Marker)
    ensures Whole(s[..NextBoundary(s, 1)]) && StartsWith(s[..NextBoundary(s, 1)], Marker)
  {
    var b := NextBoundary(s, 1);
    forall q | 0 < q < b ensures !Boundary(s[..b], q) {
      if Boundary(s[..b], q) { PrefixBoundary(s, b, q); }
    }
    FirstBoundaryAfterMarker(s, b);
    assert s[..b][..|Marker|] == s[..|Marker|];
  }

  lemma WellCutCons(part: string, parts: seq<string>)
    requires WellCut(parts) && Whole(part) && StartsWith(part, Marker)
    requires parts != [] ==> IsLineTerminator(part[|part| - 1])
    ensures WellCut([part] + parts)
  {
    hide Whole, StartsWith, IsLineTerminator;
  }

  /** The sections of a text that starts with the marker are such pieces. */
  lemma {:induction false} SectionsWellCut(s: string)
    requires StartsWith(s, Marker)
    ensures WellCut(Sections(s))
    decreases |s|
  {
    var b := NextBoundary(s, 1);
    FirstIsWhole(s);
    if b < |s| {
      SectionsWellCut(s[b..]);
    }
    hide WellCut, Whole, StartsWith, IsLineTerminator;
    if b == |s| { NoPieces(); }
    WellCutCons(s[..b], Sections(s[b..]));
  }

  lemma NoPieces()
    ensures WellCut([])
  {
  }

  lemma FirstBoundaryAfterMarker(s: string, b: nat)
    requires StartsWith(s, Marker) && (b == |s| || Boundary(s, b))
    ensures b >= |Marker|
  {
    if b < |Marker| {
      assert s[..|Marker|][b - 1] == s[b - 1];
      MarkerHasNoTerminator(b - 1);
    }
  }

  // ---- Changes ----

  datatype Kind = Add | Delete | Modify | Rename | Copy

  datatype ModeChange = ModeChange(oldMode: string, newMode: string)

  /** An addition has no old path, a deletion no new one. */
  datatype Change = Change(
    kind: Kind,
    oldPath: Option<string>,
    newPath: Option<string>,
    binary: bool,
    modeChange: Option<ModeChange>,
    reviewerMaterial: string)

  /** The values of the preamble lines with a marker, in order. */
  function Values(preamble: seq<string>, marker: string): seq<string> {
    if preamble == [] then []
    else (if StartsWith(preamble[0], marker) then [preamble[0][|marker|..]] else []) + Values(preamble[1..], marker)
  }

  datatype Headers = Headers(
    renameFrom: seq<string>,
    renameTo: seq<string>,
    copyFrom: seq<string>,
    copyTo: seq<string>,
    newFileModes: seq<string>,
    deletedFileModes: seq<string>,
    oldModes: seq<string>,
    newModes: seq<string>)
  {
    predicate IsAdd() { newFileModes != [] }
    predicate IsDelete() { deletedFileModes != [] }
    predicate IsMode() { oldModes != [] || newModes != [] }
    predicate IsRename() { renameFrom != [] || renameTo != [] }
    predicate IsCopy() { copyFrom != [] || copyTo != [] }
  }

  function LifecycleHeaders(preamble: seq<string>): Headers {
    Headers(
      Values(preamble, "rename from "),
      Values(preamble, "rename to "),
      Values(preamble, "copy from "),
      Values(preamble, "copy to "),
      Values(preamble, "new file mode "),
      Values(preamble, "deleted file mode "),
      Values(preamble, "old mode "),
      Values(preamble, "new mode "))
  }

  function One(b: bool): nat {
    if b then 1 else 0
  }

  predicate HasSingleLifecycle(h: Headers) {
    && One(h.IsAdd()) + One(h.IsDelete()) + One(h.IsRename()) + One(h.IsCopy()) <= 1
    && !((h.IsAdd() || h.IsDelete()) && h.IsMode())
  }

  predicate HasConsistentModes(h: Headers) {
    && (h.IsAdd() ==> |h.newFileModes| == 1)
    && (h.IsDelete() ==> |h.deletedFileModes| == 1)
    && (h.IsMode() ==> |h.oldModes| == 1 && |h.newModes| == 1)
  }

  predicate HasConsistentLifecycle(h: Headers, paths: Paths) {
    && HasSingleLifecycle(h)
    && (h.IsRename() ==> h.renameFrom == [paths.oldPath] && h.renameTo == [paths.newPath])
    && (h.IsCopy() ==> h.copyFrom == [paths.oldPath] && h.copyTo == [paths.newPath])
    && HasConsistentModes(h)
  }

  predicate IsBodyLine(line: string) {
    || StartsWith(line, "@@ ")
    || StartsWith(line, "--- ")
    || line == "GIT binary patch"
    || StartsWith(line, "Binary files ")
  }

  /** The lines between the header and the first line of the body. */
  function Preamble(lines: seq<string>): seq<string> {
    if lines == [] || IsBodyLine(lines[0]) then [] else [lines[0]] + Preamble(lines[1..])
  }

  predicate IsBinary(lines: seq<string>, paths: Paths) {
    || "GIT binary patch" in lines
    || ("Binary files a/" + paths.oldPath + " and b/" + paths.newPath + " differ") in lines
  }

  predicate IsSegment(segment: string) {
    segment != "" && segment != "." && segment != ".."
  }

  predicate IsRepositoryPath(path: string) {
    && path != ""
    && !StartsWith(path, "/")
    && '\0' !in path
    && forall segment | segment in Split(path, '/') :: IsSegment(segment)
  }

  function BuildChange(h: Headers, paths: Paths, binary: bool, material: string): Change {
    var modes := if |h.oldModes| > 0 && |h.newModes| > 0 then Some(ModeChange(h.oldModes[0], h.newModes[0])) else None;
    if h.IsAdd() then Change(Add, None, Some(paths.newPath), binary, None, material)
    else if h.IsDelete() then Change(Delete, Some(paths.oldPath), None, binary, None, material)
    else if h.IsRename() then Change(Rename, Some(paths.oldPath), Some(paths.newPath), binary, modes, material)
    else if h.IsCopy() then Change(Copy, Some(paths.oldPath), Some(paths.newPath), binary, modes, material)
    else Change(Modify, Some(paths.oldPath), Some(paths.newPath), binary, modes, material)
  }

  function HeaderLine(section: string): string {
    section[..IndexOf(section, '\n')]
  }

  /** One section's change, or nothing when it is ambiguous or inconsistent. */
  function ParseSection(section: string): Option<Change> {
    var paths := HeaderPaths(HeaderLine(section));
    if paths.None? then None
    else if !IsRepositoryPath(paths.value.oldPath) || !IsRepositoryPath(paths.value.newPath) then None
    else
      var lines := Split(section, '\n');
      var headers := LifecycleHeaders(Preamble(lines[1..]));
      if !HasConsistentLifecycle(headers, paths.value) then None
      else Some(BuildChange(headers, paths.value, IsBinary(lines, paths.value), section))
  }

  function ParseAll(sections: seq<string>): Option<seq<Change>> {
    if sections == [] then Some([])
    else
      var change, rest := ParseSection(sections[0]), ParseAll(sections[1..]);
      if change.None? || rest.None? then None else Some([change.value] + rest.value)
  }

  /** What a patch means: its changes in order, if every section is a readable one. */
  function Parsed(diff: string): Option<seq<Change>> {
    if StartsWith(diff, Marker) then ParseAll(Sections(diff)) else None
  }

  /** parseCanonicalRepositoryChanges. */
  method ParseCanonicalRepositoryChanges(diff: string) returns (result: Option<seq<Change>>)
    ensures result == Parsed(diff)
  {
    hide ParseSection, HeaderPaths;
    var sections := Sections(diff);
    if sections == [] { return None; }
    if exists section | section in sections :: !StartsWith(section, Marker) {
      UnmarkedText(diff);
      return None;
    }
    MarkedText(diff);
    var changes: seq<Change> := [];
    assert sections[0..] == sections;
    PrefixedNothing([], ParseAll(sections));
    for i := 0 to |sections|
      invariant ParseAll(sections) == Prefixed(changes, ParseAll(sections[i..]))
    {
      var section := sections[i];
      assert sections[i..][1..] == sections[i + 1..];
      PrefixedTwice(changes, ParseSection(section), ParseAll(sections[i + 1..]));
      var paths := ParseDiffHeader(HeaderLine(section));
      var change := ParseChange(section, paths);
      if change.None? { return None; }
      changes := changes + [change.value];
    }
    assert ParseAll(sections[|sections|..]) == Some([]);
    PrefixedNothing(changes, Some([]));
    result := Some(changes);
  }

  method ParseChange(section: string, paths: Option<Paths>) returns (change: Option<Change>)
    requires paths == HeaderPaths(HeaderLine(section))
    ensures change == ParseSection(section)
  {
    hide HeaderPaths, IsRepositoryPath, HasConsistentLifecycle, BuildChange;
    if paths.None? { return None; }
    if !IsRepositoryPath(paths.value.oldPath) || !IsRepositoryPath(paths.value.newPath) { return None; }
    var lines := Split(section, '\n');
    var headers := LifecycleHeaders(Preamble(lines[1..]));
    if !HasConsistentLifecycle(headers, paths.value) { return None; }
    change := Some(BuildChange(headers, paths.value, IsBinary(lines, paths.value), section));
  }

  function Prefixed(changes: seq<Change>, rest: Option<seq<Change>>): Option<seq<Change>> {
    if rest.None? then None else Some(changes + rest.value)
  }

  lemma PrefixedNothing(changes: seq<Change>, rest: Option<seq<Change>>)
    ensures Prefixed([], rest) == rest
    ensures Prefixed(changes, Some([])) == Some(changes)
  {
    if rest.Some? { assert [] + rest.value == rest.value; }
    assert changes + [] == changes;
  }

  lemma PrefixedTwice(changes: seq<Change>, change: Option<Change>, rest: Option<seq<Change>>)
    ensures change.Some? ==> Prefixed(changes, Prefixed([change.value], rest)) == Prefixed(changes + [change.value], rest)
  {
    if change.Some? && rest.Some? {
      assert changes + ([change.value] + rest.value) == changes + [change.value] + rest.value;
    }
  }

  lemma MarkedText(diff: string)
    requires Sections(diff) != []
    requires forall section :: section in Sections(diff) ==> StartsWith(section, Marker)
    ensures StartsWith(diff, Marker)
  {
    var first := Sections(diff)[0];
    assert first in Sections(diff);
    assert diff[..|Marker|] == first[..|Marker|];
  }

  lemma UnmarkedText(diff: string)
    requires exists section :: section in Sections(diff) && !StartsWith(section, Marker)
    ensures !StartsWith(diff, Marker)
  {
    if StartsWith(diff, Marker) { SectionsWellCut(diff); }
  }

  // ---- Projection and filtering ----

  function Materials(changes: seq<Change>): seq<string> {
    seq(|changes|, i requires 0 <= i < |changes| => changes[i].reviewerMaterial)
  }

  /** projectRepositoryReviewerMaterial. */
  function Project(changes: seq<Change>): string {
    Concat(Materials(changes))
  }

  function PathsOf(change: Change): set<string> {
    (if change.oldPath.Some? then {change.oldPath.value} else {})
      + (if change.newPath.Some? then {change.newPath.value} else {})
  }

  function ChangePaths(changes: seq<Change>): set<string> {
    set i, path | 0 <= i < |changes| && path in PathsOf(changes[i]) :: path
  }

  /** repositoryChangePaths, before sorting. */
  method RepositoryChangePaths(changes: seq<Change>) returns (paths: set<string>)
    ensures paths == ChangePaths(changes)
  {
    paths := {};
    for i := 0 to |changes|
      invariant paths == ChangePaths(changes[..i])
    {
      if changes[i].oldPath.Some? { paths := paths + {changes[i].oldPath.value}; }
      if changes[i].newPath.Some? { paths := paths + {changes[i].newPath.value}; }
      ChangePathsSnoc(changes[..i], changes[i]);
      assert changes[..i + 1] == changes[..i] + [changes[i]];
    }
    assert changes[..|changes|] == changes;
  }

  lemma ChangePathsSnoc(changes: seq<Change>, change: Change)
    ensures ChangePaths(changes + [change]) == ChangePaths(changes) + PathsOf(change)
  {
    hide PathsOf;
    var all := changes + [change];
    forall path ensures path in ChangePaths(all) <==> path in ChangePaths(changes) + PathsOf(change) {
      if path in ChangePaths(changes) {
        var i :| 0 <= i < |changes| && path in PathsOf(changes[i]);
        assert path in PathsOf(all[i]);
      }
      if path in PathsOf(change) { assert path in PathsOf(all[|changes|]); }
    }
  }

  predicate Touches(change: Change, requested: set<string>) {
    PathsOf(change) * requested != {}
  }

  function Select(changes: seq<Change>, requested: set<string>): seq<Change> {
    if changes == [] then []
    else (if Touches(changes[0], requested) then [changes[0]] else []) + Select(changes[1..], requested)
  }

  /** filterRepositoryChanges. */
  function FilterRepositoryChanges(changes: seq<Change>, targets: Option<seq<string>>): Option<seq<Change>> {
    if targets.None? then Some(changes)
    else
      var requested := set path | path in targets.value;
      if requested == {} || exists path | path in requested :: path == "" || path !in ChangePaths(changes) then None
      else Some(Select(changes, requested))
  }

  // ---- Losslessness and stability ----

  lemma {:induction false} ParseAllKeepsMaterial(sections: seq<string>)
    requires ParseAll(sections).Some?
    ensures Materials(ParseAll(sections).value) == sections
  {
    if sections != [] {
      hide HeaderPaths, IsRepositoryPath, HasConsistentLifecycle, LifecycleHeaders, IsBinary;
      ParseAllKeepsMaterial(sections[1..]);
      assert ParseSection(sections[0]).value.reviewerMaterial == sections[0];
      hide ParseSection, Materials;
      MaterialsCons(ParseSection(sections[0]).value, ParseAll(sections[1..]).value);
      assert sections == [sections[0]] + sections[1..];
    } else {
      assert Materials([]) == [];
    }
  }

  lemma MaterialsCons(change: Change, rest: seq<Change>)
    ensures Materials([change] + rest) == [change.reviewerMaterial] + Materials(rest)
  {
  }

  /** Printing what was parsed gives the text back. */
  lemma ProjectionIsLossless(diff: string)
    requires Parsed(diff).Some?
    ensures Project(Parsed(diff).value) == diff
  {
    hide ParseAll;
    ParseAllKeepsMaterial(Sections(diff));
    SectionsRestore(diff);
  }

  /** Changes that come from parsing a patch, or a selection of such changes. */
  ghost predicate Canonical(changes: seq<Change>) {
    && WellCut(Materials(changes))
    && ParseAll(Materials(changes)) == Some(changes)
  }

  lemma ParsedIsCanonical(diff: string)
    requires Parsed(diff).Some?
    ensures Canonical(Parsed(diff).value) && Parsed(diff).value != []
  {
    SectionsWellCut(diff);
    hide WellCut, Sections;
    ParseAllKeepsMaterial(Sections(diff));
  }

  lemma CanonicalTail(changes: seq<Change>)
    requires Canonical(changes) && changes != []
    ensures Canonical(changes[1..])
    ensures ParseSection(changes[0].reviewerMaterial) == Some(changes[0])
    ensures Whole(changes[0].reviewerMaterial) && StartsWith(changes[0].reviewerMaterial, Marker)
    ensures |changes| > 1 ==> IsLineTerminator(changes[0].reviewerMaterial[|changes[0].reviewerMaterial| - 1])
  {
    hide ParseSection, Whole, IsLineTerminator, StartsWith;
    var parts := Materials(changes);
    assert parts[1..] == Materials(changes[1..]);
    assert parts[0] == changes[0].reviewerMaterial;
    assert forall i :: 0 <= i < |parts[1..]| ==> parts[1..][i] == parts[i + 1];
  }

  lemma CanonicalCons(change: Change, rest: seq<Change>)
    requires Canonical(rest)
    requires ParseSection(change.reviewerMaterial) == Some(change)
    requires Whole(change.reviewerMaterial) && StartsWith(change.reviewerMaterial, Marker)
    requires rest != [] ==> IsLineTerminator(change.reviewerMaterial[|change.reviewerMaterial| - 1])
    ensures Canonical([change] + rest)
  {
    hide ParseSection, IsLineTerminator, StartsWith;
    var parts := Materials([change] + rest);
    assert parts == [change.reviewerMaterial] + Materials(rest);
    assert parts[1..] == Materials(rest);
  }

  lemma SelectCons(changes: seq<Change>, requested: set<string>)
    requires changes != []
    ensures Select(changes, requested) ==
      if Touches(changes[0], requested) then [changes[0]] + Select(changes[1..], requested)
      else Select(changes[1..], requested)
    ensures |changes| == 1 ==> Select(changes[1..], requested) == []
  {
  }

  lemma {:induction false} SelectionIsCanonical(changes: seq<Change>, requested: set<string>)
    requires Canonical(changes)
    ensures Canonical(Select(changes, requested))
  {
    hide Canonical, Touches, ParseSection, Whole, StartsWith, IsLineTerminator;
    if changes != [] {
      SelectCons(changes, requested);
      hide Select;
      CanonicalTail(changes);
      SelectionIsCanonical(changes[1..], requested);
      if Touches(changes[0], requested) {
        CanonicalCons(changes[0], Select(changes[1..], requested));
      }
    }
  }

  /** Canonical changes survive being printed and parsed. */
  lemma CanonicalRoundTrip(changes: seq<Change>)
    requires Canonical(changes) && changes != []
    ensures Parsed(Project(changes)) == Some(changes)
  {
    var parts := Materials(changes);
    SectionsOfConcat(parts);
    assert StartsWith(parts[0], Marker);
    assert Concat(parts)[..|Marker|] == parts[0][..|Marker|];
    hide ParseAll, Sections, WellCut;
  }

  /** Selection keeps, in order, exactly the changes that touch a requested path. */
  lemma {:induction false} SelectionMeans(changes: seq<Change>, requested: set<string>, change: Change)
    ensures change in Select(changes, requested) <==> change in changes && Touches(change, requested)
  {
    if changes != [] {
      hide Touches;
      SelectionMeans(changes[1..], requested, change);
      assert changes == [changes[0]] + changes[1..];
    }
  }

  /**
   * Filtering is stable: whatever subset is accepted prints to a patch that parses to
   * exactly that subset, and every requested path is one of its paths.
   */
  lemma FilteredPatchParsesToItself(diff: string, targets: Option<seq<string>>)
    requires Parsed(diff).Some?
    requires FilterRepositoryChanges(Parsed(diff).value, targets).Some?
    ensures var subset := FilterRepositoryChanges(Parsed(diff).value, targets).value;
      && Parsed(Project(subset)) == Some(subset)
      && (targets.Some? ==> forall path :: path in targets.value ==> path in ChangePaths(subset))
  {
    hide Parsed, Canonical;
    ParsedIsCanonical(diff);
    var changes := Parsed(diff).value;
    if targets.None? {
      CanonicalRoundTrip(changes);
    } else {
      var requested := set path | path in targets.value;
      SelectionIsCanonical(changes, requested);
      SelectionCovers(changes, requested);
      var some :| some in requested;
      CanonicalRoundTrip(Select(changes, requested));
    }
  }

  lemma SelectionCovers(changes: seq<Change>, requested: set<string>)
    requires forall path :: path in requested ==> path in ChangePaths(changes)
    ensures forall path :: path in requested ==> path in ChangePaths(Select(changes, requested))
    ensures requested != {} ==> Select(changes, requested) != []
  {
    forall path | path in requested ensures path in ChangePaths(Select(changes, requested)) {
      var i :| 0 <= i < |changes| && path in PathsOf(changes[i]);
      assert path in PathsOf(changes[i]) * requested;
      SelectionMeans(changes, requested, changes[i]);
      var k :| 0 <= k < |Select(changes, requested)| && Select(changes, requested)[k] == changes[i];
    }
    if requested != {} {
      var path :| path in requested;
      assert path in ChangePaths(Select(changes, requested));
    }
  }

  // ---- What an accepted section says ----

  /** The lifecycle lines a change of each kind has: these and no others. */
  predicate LifecycleLines(h: Headers, change: Change, paths: Paths) {
    && (if change.kind == Add then |h.newFileModes| == 1 else h.newFileModes == [])
    && (if change.kind == Delete then |h.deletedFileModes| == 1 else h.deletedFileModes == [])
    && (h.renameFrom == if change.kind == Rename then [paths.oldPath] else [])
    && (h.renameTo == if change.kind == Rename then [paths.newPath] else [])
    && (h.copyFrom == if change.kind == Copy then [paths.oldPath] else [])
    && (h.copyTo == if change.kind == Copy then [paths.newPath] else [])
    && (h.oldModes == if change.modeChange.Some? then [change.modeChange.value.oldMode] else [])
    && (h.newModes == if change.modeChange.Some? then [change.modeChange.value.newMode] else [])
  }

  predicate CarriedPaths(change: Change, paths: Paths) {
    && (change.oldPath == if change.kind == Add then None else Some(paths.oldPath))
    && (change.newPath == if change.kind == Delete then None else Some(paths.newPath))
    && (change.kind == Add || change.kind == Delete ==> change.modeChange.None?)
  }

  /**
   * A section is accepted exactly when its header spells two repository paths and its
   * lifecycle lines are those of one kind of change; the change is then that one.
   */
  lemma AcceptedIff(section: string, change: Change)
    ensures ParseSection(section) == Some(change) <==>
      && HeaderPaths(HeaderLine(section)).Some?
      && var paths := HeaderPaths(HeaderLine(section)).value;
      && IsRepositoryPath(paths.oldPath) && IsRepositoryPath(paths.newPath)
      && LifecycleLines(LifecycleHeaders(Preamble(Split(section, '\n')[1..])), change, paths)
      && CarriedPaths(change, paths)
      && change.binary == IsBinary(Split(section, '\n'), paths)
      && change.reviewerMaterial == section
  {
    hide LifecycleHeaders, IsBinary, IsRepositoryPath, HeaderPaths, Preamble, Split;
  }
}
