/** The path-bearing first line of a Git patch section (src/adapters/repository-change.ts:97-131). */
module GitHeader {
  import opened Results
  import opened Strings

  const Marker := "diff --git "

  /** A path read off the front of a text, and what follows it. */
  datatype Read = Read(path: string, rest: string)

  /** Reading a quoted path from just after its opening quote. */
  function Unquote(t: string): Option<Read> {
    if t == "" then None
    else if t[0] == '"' then Some(Read("", t[1..]))
    else if t[0] == '\\' && |t| > 1 then
      if t[1] != '\\' && t[1] != '"' then None else Prepend([t[1]], Unquote(t[2..]))
    else Prepend([t[0]], Unquote(t[1..]))
  }

  function Prepend(value: string, rest: Option<Read>): Option<Read> {
    if rest.None? then None else Some(Read(value + rest.value.path, rest.value.rest))
  }

  /** indexOf, or the length of the text. */
  function IndexOf(t: string, c: char): (at: nat)
    ensures at <= |t| && c !in t[..at] && (at < |t| ==> t[at] == c)
  {
    if t == "" || t[0] == c then 0 else 1 + IndexOf(t[1..], c)
  }

  function SkipBlank(t: string): string {
    if t != "" && t[0] == ' ' then t[1..] else t
  }

  function Take(t: string): Option<Read> {
    TakeToken(SkipBlank(t))
  }

  function TakeToken(u: string): Option<Read> {
    if u != "" && u[0] == '"' then Unquote(u[1..])
    else
      var end := IndexOf(u, ' ');
      Some(Read(u[..end], if end == |u| then "" else u[end + 1..]))
  }

  datatype Token = Token(path: string, next: nat)

  ghost predicate Reads(input: string, token: Option<Token>, read: Option<Read>) {
    && (token.None? <==> read.None?)
    && (token.Some? ==>
          && token.value.path == read.value.path
          && token.value.next <= |input| && input[token.value.next..] == read.value.rest)
  }

  /** The quoted branch of readGitPath, from just after the opening quote. */
  method ReadQuoted(input: string, from: nat) returns (token: Option<Token>)
    requires from <= |input|
    ensures Reads(input, token, Unquote(input[from..]))
  {
    hide Unquote;
    var value := "";
    var i := from;
    PrependNothing(Unquote(input[i..]));
    while i < |input|
      invariant from <= i <= |input|
      invariant Unquote(input[from..]) == Prepend(value, Unquote(input[i..]))
    {
      UnquoteStep(input, i);
      if input[i] == '"' {
        return Some(Token(value, i + 1));
      }
      if input[i] == '\\' && i + 1 < |input| {
        i := i + 1;
        var escaped := input[i];
        if escaped != '\\' && escaped != '"' {
          return None;
        }
        PrependTwice(value, [escaped], Unquote(input[i + 1..]));
        value := value + [escaped];
      } else {
        PrependTwice(value, [input[i]], Unquote(input[i + 1..]));
        value := value + [input[i]];
      }
      i := i + 1;
    }
    NothingUnquoted(input[i..]);
    token := None;
  }

  lemma NothingUnquoted(t: string)
    requires t == ""
    ensures Unquote(t).None?
  {
  }

  lemma UnquoteStep(input: string, i: nat)
    requires i < |input|
    ensures Unquote(input[i..]) ==
      if input[i] == '"' then Some(Read("", input[i + 1..]))
      else if input[i] == '\\' && i + 1 < |input| then
        if input[i + 1] != '\\' && input[i + 1] != '"' then None
        else Prepend([input[i + 1]], Unquote(input[i + 2..]))
      else Prepend([input[i]], Unquote(input[i + 1..]))
  {
    assert input[i..][1..] == input[i + 1..];
    assert i + 1 < |input| ==> input[i..][2..] == input[i + 2..];
  }

  /** readGitPath: a quoted path is read character by character. */
  method ReadGitPath(input: string, start: nat) returns (token: Option<Token>)
    requires start <= |input|
    ensures Reads(input, token, Take(input[start..]))
  {
    hide Unquote, IndexOf, TakeToken;
    var from := start;
    if from < |input| && input[from] == ' ' { from := from + 1; }
    assert input[from..] == SkipBlank(input[start..]) by { Skipped(input, start); }
    hide SkipBlank;
    if from < |input| && input[from] == '"' {
      assert TakeToken(input[from..]) == Unquote(input[from + 1..]) by { QuotedToken(input, from); }
      token := ReadQuoted(input, from + 1);
      return;
    }
    var end := from + IndexOf(input[from..], ' ');
    token := Some(Token(input[from..end], if end == |input| then end else end + 1));
    PlainToken(input, from);
  }

  /** Outside quotes a token ends before the next blank. */
  lemma PlainToken(input: string, from: nat)
    requires from <= |input| && (from < |input| ==> input[from] != '"')
    ensures var end := from + IndexOf(input[from..], ' ');
      TakeToken(input[from..]) == Some(Read(input[from..end], if end == |input| then "" else input[end + 1..]))
  {
    hide IndexOf, Unquote;
    var u := input[from..];
    var end := from + IndexOf(u, ' ');
    assert u[..end - from] == input[from..end];
    assert end < |input| ==> u[end - from + 1..] == input[end + 1..];
  }

  lemma Skipped(input: string, start: nat)
    requires start <= |input|
    ensures SkipBlank(input[start..]) ==
      if start < |input| && input[start] == ' ' then input[start + 1..] else input[start..]
  {
  }

  lemma QuotedToken(input: string, from: nat)
    requires from < |input| && input[from] == '"'
    ensures TakeToken(input[from..]) == Unquote(input[from + 1..])
  {
    assert input[from..][1..] == input[from + 1..];
  }

  lemma PrependNothing(rest: Option<Read>)
    ensures Prepend("", rest) == rest
  {
    if rest.Some? { assert "" + rest.value.path == rest.value.path; }
  }

  lemma PrependTwice(a: string, b: string, rest: Option<Read>)
    ensures Prepend(a, Prepend(b, rest)) == Prepend(a + b, rest)
  {
    if rest.Some? { assert a + (b + rest.value.path) == a + b + rest.value.path; }
  }

  datatype Paths = Paths(oldPath: string, newPath: string)

  function HeaderPaths(h: string): Option<Paths> {
    if !StartsWith(h, Marker) then None
    else
      var a := Take(h[|Marker|..]);
      if a.None? then None
      else
        var b := Take(a.value.rest);
        if b.None? || b.value.rest != "" then None
        else if !StartsWith(a.value.path, "a/") || !StartsWith(b.value.path, "b/") then None
        else if |a.value.path| == 2 || |b.value.path| == 2 then None
        else Some(Paths(a.value.path[2..], b.value.path[2..]))
  }

  method ParseDiffHeader(header: string) returns (paths: Option<Paths>)
    ensures paths == HeaderPaths(header)
  {
    hide Take;
    if !StartsWith(header, Marker) { return None; }
    var oldToken := ReadGitPath(header, |Marker|);
    if oldToken.None? { return None; }
    var newToken := ReadGitPath(header, oldToken.value.next);
    if newToken.None? || newToken.value.next != |header| { return None; }
    if !StartsWith(oldToken.value.path, "a/") || !StartsWith(newToken.value.path, "b/") { return None; }
    var older, newer := oldToken.value.path[2..], newToken.value.path[2..];
    paths := if older != "" && newer != "" then Some(Paths(older, newer)) else None;
  }

  // ---- The grammar the header reader accepts ----

  function Escape(path: string): string {
    if path == "" then "" else EscapeChar(path[0]) + Escape(path[1..])
  }

  function EscapeChar(c: char): string {
    if c == '\\' || c == '"' then ['\\', c] else [c]
  }

  function Spelled(path: string, quoted: bool): string {
    if quoted then "\"" + (Escape(path) + "\"") else path
  }

  function Space(present: bool): string {
    if present then " " else ""
  }

  /** How a header may be written: quoting of each path, and the blanks the reader tolerates. */
  datatype Spelling = Spelling(oldQuoted: bool, newQuoted: bool, lead: bool, gap: bool, tail: bool)

  predicate Writable(w: Spelling, paths: Paths) {
    && (!w.oldQuoted ==> ' ' !in paths.oldPath)
    && (!w.newQuoted ==> ' ' !in paths.newPath)
    && (w.tail ==> !w.newQuoted)
  }

  function Header(w: Spelling, paths: Paths): string {
    Marker + (Space(w.lead) + (Spelled("a/" + paths.oldPath, w.oldQuoted) + (Space(!w.oldQuoted) + NewPart(w, paths))))
  }

  function NewPart(w: Spelling, paths: Paths): string {
    Space(w.gap) + (Spelled("b/" + paths.newPath, w.newQuoted) + Space(w.tail))
  }

  lemma {:induction false} UnquoteOfEscape(path: string, rest: string)
    ensures Unquote((Escape(path) + "\"") + rest) == Some(Read(path, rest))
  {
    if path == "" {
      assert (Escape(path) + "\"") + rest == ['"'] + rest;
    } else {
      var tail := (Escape(path[1..]) + "\"") + rest;
      assert (Escape(path) + "\"") + rest == EscapeChar(path[0]) + tail;
      assert (EscapeChar(path[0]) + tail)[|EscapeChar(path[0])|..] == tail;
      UnquoteOfEscape(path[1..], rest);
      assert path == [path[0]] + path[1..];
    }
  }

  lemma {:induction false} UnquoteIsEscape(t: string)
    requires Unquote(t).Some?
    ensures var r := Unquote(t).value; t == (Escape(r.path) + "\"") + r.rest
  {
    var r := Unquote(t).value;
    if t[0] == '"' {
      assert t == [t[0]] + t[1..];
    } else {
      var n := if t[0] == '\\' && |t| > 1 then 2 else 1;
      assert Unquote(t) == Prepend([t[n - 1]], Unquote(t[n..]));
      assert t[..n] == EscapeChar(t[n - 1]);
      hide Unquote, EscapeChar, Escape;
      UnquoteIsEscape(t[n..]);
      var later := Unquote(t[n..]).value;
      EscapeOne(t[n - 1], later.path);
      assert t == t[..n] + t[n..];
      assert t[..n] + ((Escape(later.path) + "\"") + later.rest) == ((t[..n] + Escape(later.path)) + "\"") + later.rest;
    }
  }

  lemma EscapeOne(c: char, path: string)
    ensures Escape([c] + path) == EscapeChar(c) + Escape(path)
  {
    assert ([c] + path)[1..] == path;
  }

  /** A path that is quoted, or free of blanks and of a quote at its start. */
  predicate Spellable(path: string, quoted: bool) {
    path != "" && (!quoted ==> ' ' !in path && path[0] != '"')
  }

  lemma {:induction false} IndexAfter(path: string, rest: string, c: char)
    requires c !in path && (rest == "" || rest[0] == c)
    ensures IndexOf(path + rest, c) == |path|
  {
    if path != "" {
      assert (path + rest)[1..] == path[1..] + rest;
      IndexAfter(path[1..], rest, c);
    } else {
      assert path + rest == rest;
    }
  }

  lemma BlankSkipped(lead: bool, u: string)
    requires u != "" && u[0] != ' '
    ensures SkipBlank(Space(lead) + u) == u
  {
  }

  lemma QuotedIsRead(path: string, rest: string)
    ensures TakeToken(Spelled(path, true) + rest) == Some(Read(path, rest))
  {
    UnquoteOfEscape(path, rest);
    hide Escape, Unquote;
    var u, tail := Spelled(path, true) + rest, (Escape(path) + "\"") + rest;
    assert u == ['"'] + tail;
    assert u[0] == '"' && u[1..] == tail;
  }

  lemma PlainIsRead(path: string, rest: string)
    requires Spellable(path, false) && (rest == "" || rest[0] == ' ')
    ensures TakeToken(path + rest) == Some(Read(path, if rest != "" then rest[1..] else rest))
  {
    IndexAfter(path, rest, ' ');
    hide Unquote, IndexOf;
    var u := path + rest;
    assert u[..|path|] == path;
    assert rest != "" ==> u[|path| + 1..] == rest[1..];
  }

  /** A written token is read. */
  lemma TokenIsRead(lead: bool, path: string, quoted: bool, rest: string)
    requires Spellable(path, quoted) && (quoted || rest == "" || rest[0] == ' ')
    ensures Take(Space(lead) + (Spelled(path, quoted) + rest)) ==
      Some(Read(path, if !quoted && rest != "" then rest[1..] else rest))
  {
    BlankSkipped(lead, Spelled(path, quoted) + rest);
    hide TakeToken, Escape, SkipBlank;
    if quoted { QuotedIsRead(path, rest); } else { PlainIsRead(path, rest); }
  }

  lemma UnquotedWasWritten(u: string)
    requires u != "" && u[0] == '"' && TakeToken(u).Some?
    ensures var r := TakeToken(u).value; u == Spelled(r.path, true) + r.rest
  {
    UnquoteIsEscape(u[1..]);
    hide Unquote, Escape;
    assert u == [u[0]] + u[1..];
  }

  lemma PlainWasWritten(u: string)
    requires u == "" || u[0] != '"'
    requires TakeToken(u).value.path != ""
    ensures var r := TakeToken(u).value;
      Spellable(r.path, false) && (r.path == u ==> r.rest == "") && u == r.path + (Space(r.path != u) + r.rest)
  {
    hide Unquote;
    var end := IndexOf(u, ' ');
    hide IndexOf;
    assert u == u[..end] + u[end..];
    assert end < |u| ==> u[end..] == [' '] + u[end + 1..];
  }

  lemma BlankWasSkipped(t: string)
    ensures t == Space(|SkipBlank(t)| < |t|) + SkipBlank(t)
  {
    if t != "" { assert t == [t[0]] + t[1..]; }
  }

  /** Whatever is read is a written token. */
  lemma TokenWasWritten(t: string) returns (lead: bool, quoted: bool, tail: bool)
    requires Take(t).Some? && Take(t).value.path != ""
    ensures var r := Take(t).value;
      && Spellable(r.path, quoted) && (tail ==> !quoted) && (!quoted && !tail ==> r.rest == "")
      && t == Space(lead) + (Spelled(r.path, quoted) + (Space(tail) + r.rest))
  {
    var u, r := SkipBlank(t), Take(t).value;
    lead := |u| < |t|;
    BlankWasSkipped(t);
    quoted := u != "" && u[0] == '"';
    if quoted {
      tail := false;
      UnquotedWasWritten(u);
      assert Space(tail) + r.rest == r.rest;
    } else {
      tail := r.path != u;
      PlainWasWritten(u);
    }
    hide TakeToken, SkipBlank, Escape;
  }

  lemma PathsOfTokens(body: string, rest: string, paths: Paths)
    requires Take(body) == Some(Read("a/" + paths.oldPath, rest))
    requires Take(rest) == Some(Read("b/" + paths.newPath, ""))
    requires paths.oldPath != "" && paths.newPath != ""
    ensures HeaderPaths(Marker + body) == Some(paths)
  {
    hide Take;
    MarkedBody(body);
    assert ("a/" + paths.oldPath)[2..] == paths.oldPath;
    assert ("b/" + paths.newPath)[2..] == paths.newPath;
  }

  lemma SpellableSide(side: string, path: string, quoted: bool)
    requires side == "a/" || side == "b/"
    requires !quoted ==> ' ' !in path
    ensures Spellable(side + path, quoted)
  {
  }

  /** Headers written in the grammar are read. */
  lemma WrittenHeaderIsRead(w: Spelling, paths: Paths)
    requires Writable(w, paths) && paths.oldPath != "" && paths.newPath != ""
    ensures HeaderPaths(Header(w, paths)) == Some(paths)
  {
    hide Take, Spelled, Spellable, HeaderPaths;
    SpellableSide("a/", paths.oldPath, w.oldQuoted);
    SpellableSide("b/", paths.newPath, w.newQuoted);
    NewPartIsRead(w, paths);
    OldPartIsRead(w, paths, NewPart(w, paths));
    hide NewPart, Space;
    var body := Space(w.lead) + (Spelled("a/" + paths.oldPath, w.oldQuoted) + (Space(!w.oldQuoted) + NewPart(w, paths)));
    PathsOfTokens(body, NewPart(w, paths), paths);
  }

  lemma NewPartIsRead(w: Spelling, paths: Paths)
    requires Spellable("b/" + paths.newPath, w.newQuoted) && (w.tail ==> !w.newQuoted)
    ensures Take(NewPart(w, paths)) == Some(Read("b/" + paths.newPath, ""))
  {
    hide Take, Spelled, Spellable;
    assert NewPart(w, paths) == Space(w.gap) + (Spelled("b/" + paths.newPath, w.newQuoted) + Space(w.tail));
    TokenIsRead(w.gap, "b/" + paths.newPath, w.newQuoted, Space(w.tail));
  }

  lemma OldPartIsRead(w: Spelling, paths: Paths, rest: string)
    requires Spellable("a/" + paths.oldPath, w.oldQuoted)
    ensures Take(Space(w.lead) + (Spelled("a/" + paths.oldPath, w.oldQuoted) + (Space(!w.oldQuoted) + rest))) ==
      Some(Read("a/" + paths.oldPath, rest))
  {
    hide Take, Spelled, Spellable;
    var after := Space(!w.oldQuoted) + rest;
    assert after == if w.oldQuoted then rest else [' '] + rest;
    TokenIsRead(w.lead, "a/" + paths.oldPath, w.oldQuoted, after);
  }

  lemma MarkedBody(body: string)
    ensures StartsWith(Marker + body, Marker) && (Marker + body)[|Marker|..] == body
  {
  }

  /** Headers that are read were written in the grammar. */
  lemma ReadHeaderWasWritten(h: string) returns (w: Spelling)
    requires HeaderPaths(h).Some?
    ensures var paths := HeaderPaths(h).value;
      paths.oldPath != "" && paths.newPath != "" && Writable(w, paths) && Header(w, paths) == h
  {
    hide Take, Spelled, Space;
    var a := Take(h[|Marker|..]).value;
    var b := Take(a.rest).value;
    var paths := HeaderPaths(h).value;
    assert a.path == "a/" + paths.oldPath && b.path == "b/" + paths.newPath;
    var lead, oldQuoted, oldTail := TokenWasWritten(h[|Marker|..]);
    var gap, newQuoted, newTail := TokenWasWritten(a.rest);
    w := Spelling(oldQuoted, newQuoted, lead, gap, newTail);
    assert oldTail == !oldQuoted by {
      if !oldQuoted && !oldTail { NothingIsRead(); }
    }
    assert Space(newTail) + "" == Space(newTail);
    assert h == Marker + h[|Marker|..];
  }

  lemma NothingIsRead()
    ensures Take("").Some? && Take("").value.path == ""
  {
  }

  /** A header is read as two paths exactly when it spells them. */
  lemma HeaderIff(h: string, paths: Paths)
    ensures HeaderPaths(h) == Some(paths) <==>
      paths.oldPath != "" && paths.newPath != "" && exists w :: Writable(w, paths) && Header(w, paths) == h
  {
    if HeaderPaths(h) == Some(paths) {
      var w := ReadHeaderWasWritten(h);
    }
    hide HeaderPaths, Header;
    if paths.oldPath != "" && paths.newPath != "" {
      forall w | Writable(w, paths) && Header(w, paths) == h ensures HeaderPaths(h) == Some(paths) {
        WrittenHeaderIsRead(w, paths);
      }
    }
  }
}
