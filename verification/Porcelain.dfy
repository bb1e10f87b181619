/**
 * Reading the changed paths out of `git status --porcelain=v1 -z`
 * (src/adapters/git-changes.ts:67-109, src/shared/repo-path.ts:2-4).
 */
module Porcelain {
  import opened Strings

  const NUL := '\0'

  // ---- Normalised paths ----

  function Slashed(path: string): (r: string)
    ensures |r| == |path|
    ensures forall i :: 0 <= i < |r| ==> r[i] == if path[i] == '\\' then '/' else path[i]
  {
    seq(|path|, i requires 0 <= i < |path| => if path[i] == '\\' then '/' else path[i])
  }

  function WithoutDot(path: string): string {
    if StartsWith(path, "./") then path[2..] else path
  }

  /** normalizeRepoRelativePath. */
  function Normalize(path: string): string {
    WithoutDot(Slashed(path))
  }

  /** Normalising removes one leading dot segment, so doing it again changes nothing exactly when there was one at most. */
  lemma NormalizeIdempotentIff(path: string)
    ensures Normalize(Normalize(path)) == Normalize(path) <==> !StartsWith(Slashed(path), "././")
  {
    var once, slashed := Normalize(path), Slashed(path);
    assert Slashed(once) == once;
    assert StartsWith(slashed, "././") ==> slashed[..2] == slashed[..4][..2] && slashed[2..4] == slashed[..4][2..];
    if StartsWith(slashed, "./") && StartsWith(once, "./") {
      assert slashed[..4] == slashed[..2] + once[..2];
    }
  }

  /** Two leading dot segments take two passes. */
  lemma NormalizeTwice()
    ensures Normalize("././a") == "./a" && Normalize("./a") == "a"
  {
    assert Slashed("././a") == "././a" && Slashed("./a") == "./a";
    assert "././a"[..2] == "./" && "././a"[2..] == "./a";
    assert "./a"[..2] == "./" && "./a"[2..] == "a";
  }

  /** Normalising makes every backslash a slash and drops one leading dot segment, and changes nothing else. */
  lemma NormalizeAnswers(path: string)
    ensures var skipped := if |path| >= 2 && path[0] == '.' && path[1] in "/\\" then 2 else 0;
      && |Normalize(path)| == |path| - skipped
      && forall i :: 0 <= i < |Normalize(path)| ==>
           Normalize(path)[i] == if path[i + skipped] == '\\' then '/' else path[i + skipped]
  {
    var slashed := Slashed(path);
    assert |path| >= 2 ==> slashed[..2] == [slashed[0], slashed[1]];
  }

  // ---- The parser ----

  predicate IsMove(index: char, worktree: char) {
    index == 'R' || index == 'C' || worktree == 'R' || worktree == 'C'
  }

  /** The paths a list of fields names. */
  function FieldPaths(fields: seq<string>): seq<string> {
    if fields == [] then []
    else if |fields[0]| < 4 then FieldPaths(fields[1..])
    else if !IsMove(fields[0][0], fields[0][1]) then [Normalize(fields[0][3..])] + FieldPaths(fields[1..])
    else if |fields| == 1 then [Normalize(fields[0][3..])]
    else
      [Normalize(fields[0][3..])] + (if fields[1] != "" then [Normalize(fields[1])] else []) + FieldPaths(fields[2..])
  }

  function PathsAfter(fields: seq<string>, i: nat): seq<string> {
    if i <= |fields| then FieldPaths(fields[i..]) else []
  }

  /** The paths one field adds, and the position of the next field to read. */
  function FieldStep(fields: seq<string>, i: nat): (seq<string>, nat)
    requires i < |fields|
  {
    if |fields[i]| < 4 then ([], i + 1)
    else if !IsMove(fields[i][0], fields[i][1]) then ([Normalize(fields[i][3..])], i + 1)
    else if i + 1 < |fields| && fields[i + 1] != "" then ([Normalize(fields[i][3..]), Normalize(fields[i + 1])], i + 2)
    else ([Normalize(fields[i][3..])], i + 2)
  }

  lemma OneFieldRead(fields: seq<string>, i: nat)
    requires i < |fields|
    ensures var (found, next) := FieldStep(fields, i); PathsAfter(fields, i) == found + PathsAfter(fields, next)
  {
    hide Normalize, IsMove;
    assert fields[i..][1..] == fields[i + 1..];
    assert i + 1 < |fields| ==> fields[i..][2..] == fields[i + 2..];
  }

  lemma Regroup(a: seq<string>, b: seq<string>, c: seq<string>)
    ensures a + (b + c) == (a + b) + c
  {
  }

  /** parsePorcelainZ. */
  method ParsePorcelainZ(raw: string) returns (out: seq<string>)
    ensures out == FieldPaths(Split(raw, NUL))
  {
    hide Normalize, IsMove, Split;
    out := [];
    var fields := Split(raw, NUL);
    assert fields[0..] == fields;
    var i := 0;
    NothingLeft(fields, |fields|);
    hide FieldPaths, PathsAfter;
    while i < |fields|
      invariant FieldPaths(fields) == out + PathsAfter(fields, i)
    {
      ghost var before := out;
      ghost var (found, next) := FieldStep(fields, i);
      OneFieldRead(fields, i);
      Regroup(before, found, PathsAfter(fields, next));
      var field := fields[i];
      if |field| < 4 {
        i := i + 1;
        continue;
      }
      out := out + [Normalize(field[3..])];
      if IsMove(field[0], field[1]) {
        if i + 1 < |fields| && fields[i + 1] != "" {
          out := out + [Normalize(fields[i + 1])];
        }
        i := i + 1;
      }
      i := i + 1;
      assert out == before + found;
    }
    NothingLeft(fields, i);
  }

  lemma NothingLeft(fields: seq<string>, i: nat)
    requires i >= |fields|
    ensures PathsAfter(fields, i) == []
  {
  }

  // ---- Printing ----

  /** A status record; a rename or copy names its old path too. */
  datatype Record =
    | Plain(index: char, worktree: char, path: string)
    | Moved(index: char, worktree: char, path: string, oldPath: string)

  predicate Printable(r: Record) {
    && r.path != "" && NUL !in r.path && r.index != NUL && r.worktree != NUL
    && (r.index in "RC" || r.worktree in "RC" <==> r.Moved?)
    && (r.Moved? ==> r.oldPath != "" && NUL !in r.oldPath)
  }

  function Fields(r: Record): seq<string> {
    [[r.index, r.worktree, ' '] + r.path] + if r.Moved? then [r.oldPath] else []
  }

  function Print(fields: seq<string>): string {
    if fields == [] then "" else fields[0] + [NUL] + Print(fields[1..])
  }

  function AllFields(records: seq<Record>): seq<string> {
    if records == [] then [] else Fields(records[0]) + AllFields(records[1..])
  }

  /** The output for a list of records: every field ends with a NUL. */
  function Render(records: seq<Record>): string {
    Print(AllFields(records))
  }

  function PathsOf(r: Record): seq<string> {
    [Normalize(r.path)] + if r.Moved? then [Normalize(r.oldPath)] else []
  }

  function AllPaths(records: seq<Record>): seq<string> {
    if records == [] then [] else PathsOf(records[0]) + AllPaths(records[1..])
  }

  lemma {:induction false} SplitOfPrint(fields: seq<string>)
    requires forall field :: field in fields ==> NUL !in field
    ensures Split(Print(fields), NUL) == fields + [""]
  {
    if fields != [] {
      SplitOfPrint(fields[1..]);
      SplitParts(fields[0], NUL);
      SplitAt(fields[0], Print(fields[1..]), NUL);
      assert fields == [fields[0]] + fields[1..];
    }
  }

  lemma {:induction false} FieldsHaveNoNul(records: seq<Record>)
    requires forall r :: r in records ==> Printable(r)
    ensures forall field :: field in AllFields(records) ==> NUL !in field
  {
    if records != [] {
      assert records[0] in records;
      FieldsHaveNoNul(records[1..]);
    }
  }

  /** One record is read whatever follows it. */
  lemma RecordIsRead(r: Record, rest: seq<string>)
    requires Printable(r)
    ensures FieldPaths(Fields(r) + rest) == PathsOf(r) + FieldPaths(rest)
  {
    hide Normalize;
    var fields := Fields(r) + rest;
    assert fields[0][3..] == r.path;
    assert fields[1..] == (if r.Moved? then [r.oldPath] + rest else rest);
    assert r.Moved? ==> fields[1] == r.oldPath && fields[2..] == rest;
  }

  lemma {:induction false} RecordsAreRead(records: seq<Record>)
    requires forall r :: r in records ==> Printable(r)
    ensures FieldPaths(AllFields(records) + [""]) == AllPaths(records)
  {
    if records != [] {
      hide FieldPaths, Fields, PathsOf, Printable;
      assert records[0] in records;
      RecordsAreRead(records[1..]);
      RecordIsRead(records[0], AllFields(records[1..]) + [""]);
      assert AllFields(records) + [""] == Fields(records[0]) + (AllFields(records[1..]) + [""]);
    }
  }

  /** Parsing inverts printing, even for an old path that looks like a record. */
  lemma ParsingInvertsPrinting(records: seq<Record>)
    requires forall r :: r in records ==> Printable(r)
    ensures FieldPaths(Split(Render(records), NUL)) == AllPaths(records)
  {
    FieldsHaveNoNul(records);
    SplitOfPrint(AllFields(records));
    RecordsAreRead(records);
  }

  // ---- What is no record ----

  /** A field of fewer than four characters names nothing; a move at the end, or before an empty field, one path. */
  lemma OddFieldsAreRead(field: string, rest: seq<string>)
    ensures |field| < 4 ==> FieldPaths([field] + rest) == FieldPaths(rest)
    ensures |field| >= 4 && (field[0] in "RC" || field[1] in "RC") ==>
      && FieldPaths([field]) == [Normalize(field[3..])]
      && FieldPaths([field] + ([""] + rest)) == [Normalize(field[3..])] + FieldPaths(rest)
  {
    hide Normalize;
    assert ([field] + rest)[1..] == rest;
    assert ([field] + ([""] + rest))[1..] == [""] + rest && ([field] + ([""] + rest))[2..] == rest;
  }
}
