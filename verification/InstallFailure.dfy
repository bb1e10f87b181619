/**
 * An installer call that fails after it changed its path (src/cli/install-steps.ts:315-455,
 * src/cli/install-command.ts:355-380). The call comes before its journal entry, so what it
 * changed is not recorded when the rollback starts.
 */
module InstallFailure {
  import opened Results
  import opened Rollback
  import opened RollbackTheorems
  import opened InstallJournal

  /** The failing call: its file may be created, truncated, partly written or removed, and nothing is recorded. */
  ghost predicate Fails(s: Site, s': Site, p: Path) {
    && p != [] && IsDirectory(s.tree, Parent(p)) && Replaceable(s.tree, p)
    && s'.log == s.log
    && (|| s'.tree == s.tree
        || s'.tree == Removing(s.tree, p)
        || exists content :: WritesFile(s, s', p, content))
  }

  /** The path of the failing call, when nothing is recorded for it, is like a foreign one. */
  function Beyond(foreign: Path -> bool, p: Path): Path -> bool {
    q => foreign(q) || q == p || Below(p, q)
  }

  /** Directories that were recorded stand, since only the installer could remove them and it does not. */
  ghost predicate Stand(s: Site, foreign: Path -> bool) {
    forall e :: e in s.log ==> !foreign(e.path) && (e.kind.DirectoryKind? ==> IsDirectory(s.tree, e.path))
  }

  lemma InstallStands(s: Site, s': Site, p: Path, foreign: Path -> bool)
    requires WellFormed(s.tree) && Stand(s, foreign) && Installs(s, s', p) && !foreign(p)
    ensures Stand(s', foreign)
  {
    InstallShape(s, s', p);
    InstalledKind(s, s', p);
    hide WellFormed, Snapshot;
    var e := s'.log[|s.log|];
    forall x | x in s'.log ensures !foreign(x.path) && (x.kind.DirectoryKind? ==> IsDirectory(s'.tree, x.path)) {
      if x != e {
        assert x in s.log;
        assert x.path != p ==> SameAt(s.tree, s'.tree, x.path);
      }
    }
  }

  lemma {:induction false} RunStands(run: seq<Site>, foreign: Path -> bool, i: nat)
    requires IsRun(run, foreign) && i < |run|
    ensures Stand(run[i], foreign)
  {
    hide Installs, Inv, WellFormed, Territory;
    if i > 0 {
      RunStands(run, foreign, i - 1);
      RunKeeps(run, foreign, i - 1);
      assert StepAt(run, i - 1, foreign);
      if !Intrudes(run[i - 1], run[i], foreign) {
        var p :| !foreign(p) && Installs(run[i - 1], run[i], p);
        assert WellFormed(run[i - 1].tree) by { InvIsWellFormed(run[0].tree, run[i - 1], foreign); }
        InstallStands(run[i - 1], run[i], p, foreign);
      }
    }
  }

  lemma InvIsWellFormed(t0: Tree, s: Site, foreign: Path -> bool)
    requires Inv(t0, s, foreign)
    ensures WellFormed(s.tree)
  {
  }

  lemma FailureShape(s: Site, s': Site, p: Path)
    requires WellFormed(s.tree) && Fails(s, s', p)
    ensures WellFormed(s'.tree) && Replaceable(s'.tree, p)
    ensures forall q :: q != p ==> SameAt(s.tree, s'.tree, q)
    ensures forall q :: q in s'.tree ==> !Below(p, q)
  {
    if s'.tree == Removing(s.tree, p) {
      ChildNeedsDirectory(s.tree, p);
      RemovingKeepsWellFormed(s.tree, p);
    } else if s'.tree != s.tree {
      var content :| WritesFile(s, s', p, content);
      FileKeepsWellFormed(s.tree, p, content);
    }
    NothingBelow(s'.tree, p);
  }

  /** A failing call on a recorded path leaves everything as the journal says. */
  lemma RecordedFailureKeeps(t0: Tree, s: Site, s': Site, foreign: Path -> bool, p: Path)
    requires Inv(t0, s, foreign) && Stand(s, foreign) && Fails(s, s', p) && Mentions(Firsts(s.log), p)
    ensures Inv(t0, s', foreign)
  {
    FailureShape(s, s', p);
    FirstsDistinct(s.log);
    hide WellFormed, InOrder, Firsts, Fails;
    forall e | e in Firsts(s.log) ensures !foreign(e.path) && Faithful(t0, s'.tree, e) {
      assert Faithful(t0, s.tree, e) && e in s.log;
      assert Parent(e.path) != p ==> SameAt(s.tree, s'.tree, Parent(e.path));
      assert e.path != p ==> SameAt(s.tree, s'.tree, e.path);
    }
  }

  /** A failing call on a path without a record is like a foreign write there. */
  lemma UnrecordedFailureKeeps(t0: Tree, s: Site, s': Site, foreign: Path -> bool, p: Path)
    requires Inv(t0, s, foreign) && Fails(s, s', p) && !Mentions(Firsts(s.log), p)
    ensures Inv(t0, s', Beyond(foreign, p))
  {
    FailureShape(s, s', p);
    assert s'.log == s.log && p != [] && Replaceable(s.tree, p);
    hide InOrder, Firsts, Fails, WellFormed, Faithful;
    forall e | e in Firsts(s.log) ensures !Beyond(foreign, p)(e.path) && Faithful(t0, s'.tree, e) {
      assert Faithful(t0, s.tree, e) && e.path != p;
      OthersStayFaithful(t0, s.tree, s'.tree, e, p);
    }
  }

  lemma OthersStayFaithful(t0: Tree, t: Tree, t': Tree, e: Entry, p: Path)
    requires WellFormed(t) && Faithful(t0, t, e) && e.path != p && Replaceable(t, p)
    requires forall q :: q != p ==> SameAt(t, t', q)
    ensures Faithful(t0, t', e) && !Below(p, e.path)
  {
    NotBelowFile(t, e.path, p);
    hide WellFormed;
    assert SameAt(t, t', Parent(e.path)) && SameAt(t, t', e.path);
  }

  lemma NotBelowFile(t: Tree, q: Path, p: Path)
    requires WellFormed(t) && q != [] && IsDirectory(t, Parent(q)) && Replaceable(t, p)
    ensures !Below(p, q) && Parent(q) != p
  {
    if Below(p, q) && Parent(q) != p {
      assert Parent(q)[..|p|] == p;
      if |p| < |Parent(q)| { AncestorsExist(t, Parent(q), |p|); }
    }
  }

  /** Whose changes the rollback must leave alone: the others', and the failing call's when it was not recorded. */
  function Left(s: Site, foreign: Path -> bool, p: Path): Path -> bool {
    if Mentions(Firsts(s.log), p) then foreign else Beyond(foreign, p)
  }

  /**
   * Rollback after a failing call: as after a run without one if its path was recorded
   * before; otherwise as if its path, as the call left it, were foreign.
   */
  lemma RollbackAfterFailure(run: seq<Site>, s': Site, foreign: Path -> bool, p: Path, w: World)
    requires IsRun(run, foreign) && Fails(run[|run| - 1], s', p)
    requires Quiet(s'.tree, Descending(Descending(Firsts(s'.log))), w)
    ensures var es := Descending(Descending(Firsts(s'.log)));
      Restores(run[0].tree, s'.tree, UndoAll(s'.tree, es, w, |es|), Left(s', foreign, p))
  {
    FailureKeeps(run, s', foreign, p);
    hide *;
    UndoOrderIsReversed(run[0].tree, s', Left(s', foreign, p));
    InvRestores(run[0].tree, s', Left(s', foreign, p), w);
  }

  lemma FailureKeeps(run: seq<Site>, s': Site, foreign: Path -> bool, p: Path)
    requires IsRun(run, foreign) && Fails(run[|run| - 1], s', p)
    ensures WellFormed(run[0].tree) && Inv(run[0].tree, s', Left(s', foreign, p))
  {
    var s := run[|run| - 1];
    assert WellFormed(run[0].tree) && s'.log == s.log;
    RunKeeps(run, foreign, |run| - 1);
    RunStands(run, foreign, |run| - 1);
    hide *;
    KeptEitherWay(run[0].tree, s, s', foreign, p);
  }

  lemma KeptEitherWay(t0: Tree, s: Site, s': Site, foreign: Path -> bool, p: Path)
    requires Inv(t0, s, foreign) && Stand(s, foreign) && Fails(s, s', p)
    ensures Inv(t0, s', Left(s', foreign, p))
  {
    assert s'.log == s.log;
    hide Inv, Stand, Fails, Firsts, Mentions;
    if Mentions(Firsts(s.log), p) {
      RecordedFailureKeeps(t0, s, s', foreign, p);
    } else {
      UnrecordedFailureKeeps(t0, s, s', foreign, p);
    }
  }

  // ---- Alone ----

  /** What the failing call did to its path is undone by nobody, and nothing is there to undo it from. */
  ghost predicate Lost(t0: Tree, s': Site, p: Path) {
    !Mentions(Firsts(s'.log), p) && !SameAt(t0, s'.tree, p)
  }

  /**
   * Without foreign changes, after a failing call: the whole tree is as before the
   * installation, and no error is reported, if and only if the call's path was recorded
   * before or is as it was. Otherwise exactly that path and the new directories above it
   * are not, and those directories are the errors.
   */
  lemma RollbackAloneIff(run: seq<Site>, s': Site, nobody: Path -> bool, p: Path, w: World)
    requires IsRun(run, nobody) && (forall q :: !nobody(q)) && Fails(run[|run| - 1], s', p)
    requires Quiet(s'.tree, Descending(Descending(Firsts(s'.log))), w)
    ensures var es := Descending(Descending(Firsts(s'.log)));
      var t0, result := run[0].tree, UndoAll(s'.tree, es, w, |es|);
      && (result.tree == t0 && result.errors == [] <==> !Lost(t0, s', p))
      && (result.tree == t0 <==> !Lost(t0, s', p))
      && (forall q :: q != p && !(Below(q, p) && q !in t0) ==> SameAt(t0, result.tree, q))
      && (Lost(t0, s', p) ==> SameAt(s'.tree, result.tree, p))
      && (forall f :: f in result.errors <==>
            f.problem == DirectoryNotEmpty && Lost(t0, s', p) && p in s'.tree && f.path !in t0 && Below(f.path, p))
  {
    var t0 := run[0].tree;
    var es := Descending(Descending(Firsts(s'.log)));
    var result := UndoAll(s'.tree, es, w, |es|);
    RollbackAfterFailure(run, s', nobody, p, w);
    LastShape(run, s', nobody, p);
    hide IsRun, Fails, Quiet, Descending, Firsts, UndoAll, Restores;
    if Mentions(Firsts(s'.log), p) {
      RestoresAll(t0, s'.tree, result, nobody);
    } else {
      RestoresBeyond(t0, s', result, nobody, p);
    }
  }

  lemma LastShape(run: seq<Site>, s': Site, foreign: Path -> bool, p: Path)
    requires IsRun(run, foreign) && Fails(run[|run| - 1], s', p)
    ensures WellFormed(run[0].tree) && WellFormed(s'.tree) && forall q :: q in s'.tree ==> !Below(p, q)
    ensures !Mentions(Firsts(s'.log), p) && !foreign(p) ==> forall q :: q in run[0].tree ==> !Below(p, q)
  {
    var s := run[|run| - 1];
    RunKeeps(run, foreign, |run| - 1);
    FailureShape(s, s', p);
    if !Mentions(Firsts(s'.log), p) && !foreign(p) {
      assert SameAt(run[0].tree, s.tree, p);
      NothingBelow(run[0].tree, p);
    }
  }

  lemma NothingBelow(t: Tree, p: Path)
    requires WellFormed(t) && Replaceable(t, p)
    ensures forall q :: q in t ==> !Below(p, q)
  {
    forall q | q in t ensures !Below(p, q) {
      if Below(p, q) { AncestorsExist(t, q, |p|); }
    }
  }

  /** Restoring all but one path and what is above it. */
  lemma RestoresBeyond(t0: Tree, s': Site, result: Undoing, nobody: Path -> bool, p: Path)
    requires WellFormed(t0) && WellFormed(s'.tree) && (forall q :: q in s'.tree || q in t0 ==> !Below(p, q))
    requires !Mentions(Firsts(s'.log), p) && forall q :: !nobody(q)
    requires Restores(t0, s'.tree, result, Beyond(nobody, p))
    ensures result.tree == t0 <==> !Lost(t0, s', p)
    ensures result.tree == t0 ==> result.errors == []
    ensures forall q :: q != p && !(Below(q, p) && q !in t0) ==> SameAt(t0, result.tree, q)
    ensures Lost(t0, s', p) ==> SameAt(s'.tree, result.tree, p)
    ensures forall f :: f in result.errors <==>
      f.problem == DirectoryNotEmpty && Lost(t0, s', p) && p in s'.tree && f.path !in t0 && Below(f.path, p)
  {
    var t := s'.tree;
    var theirs := Beyond(nobody, p);
    hide WellFormed, Firsts, Mentions, HoldsTerritory;
    forall q ensures HoldsTerritory(t, q, theirs) <==> p in t && Below(q, p) { HeldByCall(t, nobody, p, q); }
    forall q | Below(q, p) && p in t0 ensures q in t0 { AncestorsExist(t0, p, |q|); }
    assert theirs(p) && RolledBackAt(t0, t, result.tree, p, theirs);
    forall q | q != p && !(Below(q, p) && q !in t0) ensures SameAt(t0, result.tree, q) {
      assert RolledBackAt(t0, t, result.tree, q, theirs);
    }
    if !Lost(t0, s', p) {
      forall q ensures SameAt(t0, result.tree, q) {
        assert RolledBackAt(t0, t, result.tree, q, theirs);
      }
      SameTree(t0, result.tree);
    }
    forall f: Failure ensures f in result.errors <==>
      f.problem == DirectoryNotEmpty && Lost(t0, s', p) && p in t && f.path !in t0 && Below(f.path, p)
    {
      var q := f.path;
      assert HoldsTerritory(t, q, theirs) <==> p in t && Below(q, p);
      assert theirs(q) == (nobody(q) || q == p || Below(p, q));
      assert f in result.errors <==> f.problem == DirectoryNotEmpty && Survives(t0, t, q, theirs);
    }
    NonemptyHasMember(result.errors);
  }

  lemma SameTree(t: Tree, r: Tree)
    requires forall q :: SameAt(t, r, q)
    ensures r == t
  {
    forall q ensures q in r <==> q in t { assert SameAt(t, r, q); }
    forall q | q in t ensures r[q] == t[q] { assert SameAt(t, r, q); }
  }

  /** What a directory holds of the failing call is its path. */
  lemma HeldByCall(t: Tree, nobody: Path -> bool, p: Path, q: Path)
    requires (forall x :: !nobody(x)) && forall x :: x in t ==> !Below(p, x)
    ensures HoldsTerritory(t, q, Beyond(nobody, p)) <==> p in t && Below(q, p)
  {
    if p in t && Below(q, p) {
      assert Beyond(nobody, p)(p);
    }
  }

  // ---- Such failures ----

  const MANDATES: Path := ["mandates"]
  const DIRECTORY: Path := ["flowguard"]
  const NEW_FILE: Path := ["flowguard", "mandates"]

  /** A write that fails after truncating an existing file: the rollback, empty, leaves it empty. */
  lemma TruncatedFileIsLost(nobody: Path -> bool)
    requires forall q :: !nobody(q)
    ensures var s := Site(map[[] := Directory, MANDATES := File([1])], []);
      var s' := Site(map[[] := Directory, MANDATES := File([])], []);
      && IsRun([s], nobody) && Fails(s, s', MANDATES) && Lost(s.tree, s', MANDATES)
      && UndoAll(s'.tree, Descending(Descending(Firsts(s'.log))), World([], []), 0).tree[MANDATES] == File([])
  {
    var s := Site(map[[] := Directory, MANDATES := File([1])], []);
    var s' := Site(map[[] := Directory, MANDATES := File([])], []);
    assert WritesFile(s, s', MANDATES, []);
    assert Parent(MANDATES) == [];
  }

  const BARE := Site(map[[] := Directory], [])
  const MADE := Site(map[[] := Directory, DIRECTORY := Directory], [Entry(DIRECTORY, false, DirectoryKind, None, 0)])
  const HALF_WRITTEN := Site(MADE.tree[NEW_FILE := File([])], MADE.log)

  /** A write that fails in a directory the installer made: the rollback reports foreign content, and there is none. */
  lemma NewDirectoryIsReported(nobody: Path -> bool, w: World)
    requires forall q :: !nobody(q)
    requires Quiet(HALF_WRITTEN.tree, Descending(Descending(Firsts(HALF_WRITTEN.log))), w)
    ensures IsRun([BARE, MADE], nobody) && Fails(MADE, HALF_WRITTEN, NEW_FILE)
    ensures var es := Descending(Descending(Firsts(HALF_WRITTEN.log)));
      Failure(DIRECTORY, DirectoryNotEmpty) in UndoAll(HALF_WRITTEN.tree, es, w, |es|).errors
  {
    DirectoryIsMade(nobody);
    FileIsHalfWritten();
    hide *;
    RollbackAloneIff([BARE, MADE], HALF_WRITTEN, nobody, NEW_FILE, w);
    assert [BARE, MADE][0] == BARE && [BARE, MADE][1] == MADE;
  }

  lemma DirectoryIsMade(nobody: Path -> bool)
    requires forall q :: !nobody(q)
    ensures IsRun([BARE, MADE], nobody)
  {
    assert Parent(DIRECTORY) == [];
    assert Lstat(BARE.tree, DIRECTORY) == NoEntry;
    assert MADE.tree == BARE.tree[DIRECTORY := Directory];
    assert Journals(BARE, MADE, DIRECTORY, DirectoryKind);
    assert Installs(BARE, MADE, DIRECTORY);
    assert Step(BARE, MADE, nobody);
    assert StepAt([BARE, MADE], 0, nobody);
  }

  lemma FileIsHalfWritten()
    ensures Fails(MADE, HALF_WRITTEN, NEW_FILE) && Lost(BARE.tree, HALF_WRITTEN, NEW_FILE)
    ensures NEW_FILE in HALF_WRITTEN.tree && DIRECTORY !in BARE.tree && Below(DIRECTORY, NEW_FILE)
  {
    assert Parent(NEW_FILE) == DIRECTORY && NEW_FILE != DIRECTORY;
    assert WritesFile(MADE, HALF_WRITTEN, NEW_FILE, []);
    assert MADE.log[..0] == [] && Firsts(MADE.log) == MADE.log;
    assert MADE.log[0].path == DIRECTORY;
  }
}
