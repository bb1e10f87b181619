/**
 * What the section parser of a patch makes of a section as Git writes it, line by line,
 * and what the filter selects (src/adapters/repository-change.ts).
 */
module PatchPrinting {
  import opened Results
  import opened Strings
  import opened GitHeader
  import opened RepositoryChange

  // ---- Sections as they are written ----

  datatype Tag = RenameFrom | RenameTo | CopyFrom | CopyTo | NewFileMode | DeletedFileMode | OldMode | NewMode

  function Words(tag: Tag): string {
    match tag
    case RenameFrom => "rename from "
    case RenameTo => "rename to "
    case CopyFrom => "copy from "
    case CopyTo => "copy to "
    case NewFileMode => "new file mode "
    case DeletedFileMode => "deleted file mode "
    case OldMode => "old mode "
    case NewMode => "new mode "
  }

  /** A line between header and body: of the lifecycle, or any other. */
  datatype Line = Lifecycle(tag: Tag, value: string) | Note(text: string)

  function Text(line: Line): string {
    match line
    case Lifecycle(tag, value) => Words(tag) + value
    case Note(text) => text
  }

  function Texts(lines: seq<Line>): seq<string> {
    seq(|lines|, i requires 0 <= i < |lines| => Text(lines[i]))
  }

  /** A first line of hunks, of file names, or of binary content. */
  ghost predicate BeginsBody(line: string) {
    || line == "GIT binary patch"
    || (exists rest :: line == "@@ " + rest)
    || (exists rest :: line == "--- " + rest)
    || (exists rest :: line == "Binary files " + rest)
  }

  /** The line is taken for no line of the lifecycle and for no first line of a body. */
  ghost predicate IsNote(text: string) {
    !BeginsBody(text) && forall tag, value :: text != Words(tag) + value
  }

  /** What may stand in a section: whatever the body is, it begins with one of its first lines. */
  ghost predicate IsWritten(w: Spelling, paths: Paths, lines: seq<Line>, body: seq<string>) {
    && Writable(w, paths) && paths.oldPath != "" && paths.newPath != ""
    && '\n' !in paths.oldPath && '\n' !in paths.newPath
    && (forall i :: 0 <= i < |lines| ==> '\n' !in Text(lines[i]) && (lines[i].Note? ==> IsNote(lines[i].text)))
    && (forall i :: 0 <= i < |body| ==> '\n' !in body[i])
    && (body != [] ==> BeginsBody(body[0]))
  }

  function Section(w: Spelling, paths: Paths, lines: seq<Line>, body: seq<string>): string {
    Join([Header(w, paths)] + (Texts(lines) + body), '\n')
  }

  function Picked(lines: seq<Line>, tag: Tag): seq<string> {
    if lines == [] then []
    else (if lines[0].Lifecycle? && lines[0].tag == tag then [lines[0].value] else []) + Picked(lines[1..], tag)
  }

  /** The values of the lifecycle lines, kind by kind. */
  function WrittenHeaders(lines: seq<Line>): Headers {
    Headers(Picked(lines, RenameFrom), Picked(lines, RenameTo), Picked(lines, CopyFrom), Picked(lines, CopyTo),
            Picked(lines, NewFileMode), Picked(lines, DeletedFileMode), Picked(lines, OldMode), Picked(lines, NewMode))
  }

  // ---- Reading them ----

  lemma StartsIff(text: string, prefix: string)
    ensures StartsWith(text, prefix) <==> exists rest :: text == prefix + rest
  {
    if StartsWith(text, prefix) { assert text == prefix + text[|prefix|..]; }
    if rest :| text == prefix + rest { assert text[..|prefix|] == prefix; }
  }

  lemma BodyLineIff(line: string)
    ensures IsBodyLine(line) <==> BeginsBody(line)
  {
    StartsIff(line, "@@ ");
    StartsIff(line, "--- ");
    StartsIff(line, "Binary files ");
  }

  /** No line of the lifecycle can be taken for another. */
  lemma WordsTell(line: Line, tag: Tag)
    requires line.Note? ==> IsNote(line.text)
    ensures StartsWith(Text(line), Words(tag)) <==> line.Lifecycle? && line.tag == tag
    ensures line.Lifecycle? && line.tag == tag ==> Text(line)[|Words(tag)|..] == line.value
  {
    var text, words := Text(line), Words(tag);
    match line {
      case Note(_) =>
        StartsIff(text, words);
      case Lifecycle(other, value) =>
        if other == tag {
          assert text[..|words|] == words;
        } else {
          WordsDiffer(other, tag);
          var i :| 0 <= i < |Words(other)| && i < |words| && Words(other)[i] != words[i];
          assert text[i] == Words(other)[i];
          assert |text| >= |words| ==> text[..|words|][i] == text[i];
        }
    }
  }

  lemma WordsDiffer(a: Tag, b: Tag)
    requires a != b
    ensures exists i :: 0 <= i < |Words(a)| && i < |Words(b)| && Words(a)[i] != Words(b)[i]
  {
    var x, y := Words(a), Words(b);
    if x[0] == y[0] {
      assert x[4] != y[4] || x[5] != y[5] || x[7] != y[7];
    }
  }

  lemma LifecycleIsNoBody(line: Line)
    requires line.Note? ==> IsNote(line.text)
    ensures !IsBodyLine(Text(line))
  {
    match line {
      case Note(text) => BodyLineIff(text);
      case Lifecycle(tag, value) =>
        var words, text := Words(tag), Text(line);
        assert text[0] == words[0];
        assert |text| >= 3 ==> text[..3][0] == text[0];
        assert |text| >= 4 ==> text[..4][0] == text[0];
        assert |text| >= 13 ==> text[..13][0] == text[0];
    }
  }

  lemma TextsCons(lines: seq<Line>)
    requires lines != []
    ensures Texts(lines) == [Text(lines[0])] + Texts(lines[1..])
  {
  }

  /** The preamble ends where the body begins. */
  lemma {:induction false} PreambleIsRead(lines: seq<Line>, body: seq<string>)
    requires forall i :: 0 <= i < |lines| ==> lines[i].Note? ==> IsNote(lines[i].text)
    requires body != [] ==> BeginsBody(body[0])
    ensures Preamble(Texts(lines) + body) == Texts(lines)
  {
    hide IsBodyLine, BeginsBody, IsNote, Text;
    if lines == [] {
      assert Texts(lines) + body == body;
      if body != [] { BodyLineIff(body[0]); }
    } else {
      TextsCons(lines);
      LifecycleIsNoBody(lines[0]);
      var all := Texts(lines) + body;
      assert all[0] == Text(lines[0]) && all[1..] == Texts(lines[1..]) + body;
      PreambleIsRead(lines[1..], body);
    }
  }

  lemma {:induction false} ValuesAreRead(lines: seq<Line>, tag: Tag)
    requires forall i :: 0 <= i < |lines| ==> lines[i].Note? ==> IsNote(lines[i].text)
    ensures Values(Texts(lines), Words(tag)) == Picked(lines, tag)
  {
    hide StartsWith, IsNote, Text, Words;
    if lines != [] {
      TextsCons(lines);
      WordsTell(lines[0], tag);
      assert Texts(lines)[1..] == Texts(lines[1..]);
      ValuesAreRead(lines[1..], tag);
    }
  }

  lemma HeadersAreRead(lines: seq<Line>)
    requires forall i :: 0 <= i < |lines| ==> lines[i].Note? ==> IsNote(lines[i].text)
    ensures LifecycleHeaders(Texts(lines)) == WrittenHeaders(lines)
  {
    hide IsNote, Values, Picked, Texts;
    ValuesAreRead(lines, RenameFrom);
    ValuesAreRead(lines, RenameTo);
    ValuesAreRead(lines, CopyFrom);
    ValuesAreRead(lines, CopyTo);
    ValuesAreRead(lines, NewFileMode);
    ValuesAreRead(lines, DeletedFileMode);
    ValuesAreRead(lines, OldMode);
    ValuesAreRead(lines, NewMode);
  }

  lemma {:induction false} EscapeHasNoNewline(path: string)
    requires '\n' !in path
    ensures '\n' !in Escape(path)
  {
    if path != "" { EscapeHasNoNewline(path[1..]); }
  }

  lemma HeaderHasNoNewline(w: Spelling, paths: Paths)
    requires '\n' !in paths.oldPath && '\n' !in paths.newPath
    ensures '\n' !in Header(w, paths)
  {
    EscapeHasNoNewline("a/" + paths.oldPath);
    EscapeHasNoNewline("b/" + paths.newPath);
    hide Escape;
  }

  /** A section's lines are those it was written with. */
  lemma LinesAreRead(header: string, rest: seq<string>)
    requires '\n' !in header && forall i :: 0 <= i < |rest| ==> '\n' !in rest[i]
    ensures Split(Join([header] + rest, '\n'), '\n') == [header] + rest
  {
    var lines := [header] + rest;
    hide Split, Join;
    forall i | 0 <= i < |lines| ensures '\n' !in lines[i] {
      assert i > 0 ==> lines[i] == rest[i - 1];
    }
    SplitOfJoin(lines, '\n');
  }

  /** Its header line is the first. */
  lemma HeaderLineIsRead(header: string, rest: seq<string>)
    requires '\n' !in header
    ensures HeaderLine(Join([header] + rest, '\n')) == header
  {
    var lines := [header] + rest;
    assert lines[1..] == rest;
    var tail := if rest == [] then "" else ['\n'] + Join(rest, '\n');
    assert Join(lines, '\n') == header + tail;
    hide Join;
    IndexAfter(header, tail, '\n');
    hide IndexOf;
    assert (header + tail)[..|header|] == header;
  }

  // ---- Binary content and paths ----

  /** Git says so in one of two lines. */
  ghost predicate SaysBinary(body: seq<string>, paths: Paths) {
    exists i :: 0 <= i < |body|
      && (body[i] == "GIT binary patch" || body[i] == "Binary files a/" + paths.oldPath + " and b/" + paths.newPath + " differ")
  }

  /** The path is a list of names, none empty, none a dot or two, joined by slashes. */
  ghost predicate IsNamePath(path: string) {
    '\0' !in path && exists names: seq<string> :: names != [] && path == Join(names, '/') && AreNames(names)
  }

  ghost predicate AreNames(names: seq<string>) {
    forall i :: 0 <= i < |names| ==> names[i] != "" && names[i] != "." && names[i] != ".." && '/' !in names[i]
  }

  lemma NamePathIff(path: string)
    ensures IsRepositoryPath(path) <==> IsNamePath(path)
  {
    SplitParts(path, '/');
    JoinOfSplit(path, '/');
    var parts := Split(path, '/');
    hide Split;
    if IsRepositoryPath(path) {
      forall i | 0 <= i < |parts| ensures parts[i] != "" && parts[i] != "." && parts[i] != ".." {
        assert parts[i] in parts;
      }
      assert AreNames(parts);
    }
    if IsNamePath(path) {
      var names: seq<string> :| names != [] && path == Join(names, '/') && AreNames(names);
      SplitOfJoin(names, '/');
      assert Split(path, '/') == names;
      assert names[0] != "" && '/' !in names[0];
      assert path[0] == names[0][0];
    }
  }

  lemma BinaryIff(header: string, paths: Paths, w: Spelling, lines: seq<Line>, body: seq<string>)
    requires IsWritten(w, paths, lines, body) && header == Header(w, paths)
    ensures IsBinary([header] + (Texts(lines) + body), paths) <==> SaysBinary(body, paths)
  {
    var mark, files := "GIT binary patch", "Binary files a/" + paths.oldPath + " and b/" + paths.newPath + " differ";
    BinaryBeginsBody(paths);
    assert StartsWith(header, Marker) by { HeaderStarts(w, paths); }
    hide BeginsBody, Header;
    OnlyInBody(header, lines, body, mark);
    OnlyInBody(header, lines, body, files);
  }

  lemma HeaderStarts(w: Spelling, paths: Paths)
    ensures StartsWith(Header(w, paths), Marker)
  {
    assert Header(w, paths)[..|Marker|] == Marker;
  }

  lemma BinaryBeginsBody(paths: Paths)
    ensures BeginsBody("Binary files a/" + paths.oldPath + " and b/" + paths.newPath + " differ")
  {
    var files := "Binary files a/" + paths.oldPath + " and b/" + paths.newPath + " differ";
    var rest := "a/" + paths.oldPath + " and b/" + paths.newPath + " differ";
    assert files == "Binary files " + rest;
  }

  /** A line of a body stands in a section only in its body. */
  lemma OnlyInBody(header: string, lines: seq<Line>, body: seq<string>, line: string)
    requires BeginsBody(line) && StartsWith(header, Marker)
    requires forall i :: 0 <= i < |lines| ==> lines[i].Note? ==> IsNote(lines[i].text)
    ensures line in [header] + (Texts(lines) + body) <==> exists i :: 0 <= i < |body| && body[i] == line
  {
    var all := [header] + (Texts(lines) + body);
    BodyLineIff(line);
    assert header != line by { HeaderIsNoBody(header); }
    forall i | 0 <= i < |lines| ensures Texts(lines)[i] != line {
      LifecycleIsNoBody(lines[i]);
    }
    hide IsBodyLine, BeginsBody, IsNote, Text;
    if i :| 0 <= i < |body| && body[i] == line { assert all[1 + |lines| + i] == line; }
    if line in all {
      var k :| 0 <= k < |all| && all[k] == line;
      assert k > 0 && k - 1 >= |lines|;
      assert body[k - 1 - |lines|] == line;
    }
  }

  lemma HeaderIsNoBody(header: string)
    requires StartsWith(header, Marker)
    ensures !IsBodyLine(header)
  {
    assert header[..|Marker|][0] == 'd';
    assert |header| >= 3 ==> header[..3][0] == header[0];
    assert |header| >= 4 ==> header[..4][0] == header[0];
    assert |header| >= 13 ==> header[..13][0] == header[0];
  }

  /**
   * A written section is read as the change its lifecycle lines say, and as no other: its
   * paths must be name paths, its lifecycle lines those of one kind, whatever notes stand
   * among them and whatever the body holds; it is binary when the body says so.
   */
  lemma WrittenSectionIsRead(w: Spelling, paths: Paths, lines: seq<Line>, body: seq<string>, change: Change)
    requires IsWritten(w, paths, lines, body)
    ensures ParseSection(Section(w, paths, lines, body)) == Some(change) <==>
      && IsNamePath(paths.oldPath) && IsNamePath(paths.newPath)
      && LifecycleLines(WrittenHeaders(lines), change, paths) && CarriedPaths(change, paths)
      && change.binary == SaysBinary(body, paths)
      && change.reviewerMaterial == Section(w, paths, lines, body)
  {
    var header, rest := Header(w, paths), Texts(lines) + body;
    var section := Section(w, paths, lines, body);
    HeaderHasNoNewline(w, paths);
    LinesAreRead(header, rest);
    HeaderLineIsRead(header, rest);
    assert ([header] + rest)[1..] == rest;
    HeaderIff(header, paths);
    PreambleIsRead(lines, body);
    HeadersAreRead(lines);
    NamePathIff(paths.oldPath);
    NamePathIff(paths.newPath);
    BinaryIff(header, paths, w, lines, body);
    hide *;
    AcceptedIff(section, change);
  }

  // ---- The filter ----

  predicate NamesAny(change: Change, requested: set<string>) {
    || (change.oldPath.Some? && change.oldPath.value in requested)
    || (change.newPath.Some? && change.newPath.value in requested)
  }

  /** Selection goes change by change, in order: each is kept whole or left out by its own paths. */
  lemma {:induction false} SelectionIsPointwise(a: seq<Change>, b: seq<Change>, change: Change, requested: set<string>)
    ensures Select([], requested) == []
    ensures Select([change], requested) == if NamesAny(change, requested) then [change] else []
    ensures Select(a + b, requested) == Select(a, requested) + Select(b, requested)
  {
    assert PathsOf(change) * requested != {} <==> NamesAny(change, requested) by {
      if NamesAny(change, requested) {
        var path := if change.oldPath.Some? && change.oldPath.value in requested then change.oldPath.value else change.newPath.value;
        assert path in PathsOf(change) * requested;
      }
    }
    assert [change][1..] == [];
    if a == [] {
      assert a + b == b;
    } else {
      assert (a + b)[1..] == a[1..] + b;
      SelectionIsPointwise(a[1..], b, change, requested);
    }
  }

  /** A request is refused exactly when it is empty or names a path that no change has. */
  lemma FilterAnswers(changes: seq<Change>, targets: Option<seq<string>>)
    ensures targets.None? ==> FilterRepositoryChanges(changes, targets) == Some(changes)
    ensures targets.Some? ==>
      && (FilterRepositoryChanges(changes, targets).None? <==>
            || targets.value == []
            || exists k :: 0 <= k < |targets.value| && IsUnknown(changes, targets.value[k]))
      && (FilterRepositoryChanges(changes, targets).Some? ==>
            FilterRepositoryChanges(changes, targets).value == Select(changes, set path | path in targets.value))
  {
    if targets.Some? {
      var requested := set path | path in targets.value;
      if targets.value != [] { assert targets.value[0] in requested; }
      forall path ensures path == "" || path !in ChangePaths(changes) <==> IsUnknown(changes, path) {
        UnknownIff(changes, path);
      }
      hide ChangePaths, IsUnknown, Select;
      if k :| 0 <= k < |targets.value| && IsUnknown(changes, targets.value[k]) {
        assert targets.value[k] in requested;
      }
    }
  }

  ghost predicate IsUnknown(changes: seq<Change>, path: string) {
    path == "" || forall i :: 0 <= i < |changes| ==> changes[i].oldPath != Some(path) && changes[i].newPath != Some(path)
  }

  lemma UnknownIff(changes: seq<Change>, path: string)
    ensures path == "" || path !in ChangePaths(changes) <==> IsUnknown(changes, path)
  {
    if i :| 0 <= i < |changes| && (changes[i].oldPath == Some(path) || changes[i].newPath == Some(path)) {
      assert path in PathsOf(changes[i]);
    }
  }
}
