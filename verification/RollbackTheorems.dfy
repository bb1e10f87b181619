/**
 * What undoing a journal in reverse order achieves (src/cli/install-helpers-rollback.ts:104-140):
 * the exact tree and the exact list of errors, with and without foreign content.
 */
module RollbackTheorems {
  import opened Results
  import opened Rollback

  /** Nothing fails from outside and the random temporary names are new. */
  ghost predicate Quiet(t: Tree, es: seq<Entry>, w: World) {
    && Covers(w, es)
    && forall i :: 0 <= i < |es| ==> QuietAt(t, es, w, i)
  }

  ghost predicate QuietAt(t: Tree, es: seq<Entry>, w: World, i: nat)
    requires Covers(w, es) && i < |es|
  {
    && w.faults[i] == NoFault
    && TemporaryName(es[i].path, w.suffixes[i]) !in t
    && !Journaled(es, TemporaryName(es[i].path, w.suffixes[i]))
  }

  ghost predicate JournaledTo(es: seq<Entry>, k: nat, p: Path)
    requires k <= |es|
  {
    exists i :: 0 <= i < k && es[i].path == p
  }

  ghost predicate Created(es: seq<Entry>, p: Path) {
    exists i :: 0 <= i < |es| && es[i].path == p && !es[i].existed
  }

  /** The tree still has the journaled kind of thing, or nothing, at the entry's path. */
  predicate Expected(t: Tree, e: Entry) {
    && e.path != [] && IsDirectory(t, Parent(e.path))
    && (e.existed && e.content.Some? && e.path in t ==> t[e.path].File?)
    && (!e.existed && e.path in t ==> if e.kind.DirectoryKind? then t[e.path].Directory? else t[e.path].File?)
  }

  /** Two entries in undo order: different paths, children before the parents the installer created. */
  predicate Ordered(earlier: Entry, later: Entry) {
    && earlier.path != later.path
    && (!earlier.existed ==> !Below(earlier.path, later.path))
    && (!later.existed && Below(later.path, earlier.path) ==> !earlier.existed)
  }

  /** A journal in undo order that describes the tree. */
  ghost predicate Sane(t: Tree, es: seq<Entry>) {
    && (forall e :: e in es ==> Expected(t, e))
    && (forall i, j :: 0 <= i < j < |es| ==> Ordered(es[i], es[j]))
  }

  /** The path holds, at any depth, something the installer did not create. */
  ghost predicate HoldsForeign(t: Tree, es: seq<Entry>, p: Path) {
    exists q :: q in t && Below(p, q) && !Created(es, q)
  }

  /** What undoing an entry of the journal must leave behind. */
  ghost predicate Settled(t: Tree, r: Tree, es: seq<Entry>, e: Entry) {
    if e.existed && e.content.Some? then e.path in r && r[e.path] == File(e.content.value)
    else if e.existed || (e.kind.DirectoryKind? && HoldsForeign(t, es, e.path)) then SameAt(t, r, e.path)
    else e.path !in r
  }

  ghost predicate UndoneTo(t: Tree, r: Tree, es: seq<Entry>, k: nat)
    requires k <= |es|
  {
    && (forall i :: 0 <= i < k ==> Settled(t, r, es, es[i]))
    && (forall p :: !JournaledTo(es, k, p) ==> SameAt(t, r, p))
  }

  /** The directories that must survive, in undo order. */
  ghost function Conflicts(t: Tree, es: seq<Entry>, k: nat): seq<Failure>
    requires k <= |es|
  {
    if k == 0 then []
    else Conflicts(t, es, k - 1) + ConflictAt(t, es, es[k - 1])
  }

  ghost function ConflictAt(t: Tree, es: seq<Entry>, e: Entry): seq<Failure> {
    if !e.existed && e.kind.DirectoryKind? && HoldsForeign(t, es, e.path)
    then [Failure(e.path, DirectoryNotEmpty)] else []
  }

  /** The operations that must be reported: a file restored, or a created path removed that was there and holds nothing foreign. */
  ghost function Reports(t: Tree, es: seq<Entry>, k: nat): seq<FileOp>
    requires k <= |es|
  {
    if k == 0 then []
    else Reports(t, es, k - 1) + ReportAt(t, es, es[k - 1])
  }

  ghost function ReportAt(t: Tree, es: seq<Entry>, e: Entry): seq<FileOp> {
    if e.existed then (if e.content.Some? then [FileOp(e.path, Written)] else [])
    else if e.path in t && !(e.kind.DirectoryKind? && HoldsForeign(t, es, e.path)) then [FileOp(e.path, Removed)]
    else []
  }

  lemma {:induction false} AncestorsExist(t: Tree, q: Path, n: nat)
    requires WellFormed(t) && q in t && n < |q|
    ensures IsDirectory(t, q[..n])
    decreases |q|
  {
    if n < |q| - 1 {
      assert Parent(q)[..n] == q[..n];
      AncestorsExist(t, Parent(q), n);
    }
  }

  /** A path of the tree the installer did not create is still there at every point. */
  lemma NotCreatedIsKept(t: Tree, es: seq<Entry>, r: Tree, k: nat, p: Path)
    requires k <= |es| && UndoneTo(t, r, es, k)
    requires p in t && !Created(es, p)
    ensures p in r
  {
    hide HoldsForeign;
    if JournaledTo(es, k, p) {
      var i :| 0 <= i < k && es[i].path == p;
      assert Settled(t, r, es, es[i]);
    }
  }

  lemma CreatedAncestorIsKept(t: Tree, es: seq<Entry>, r: Tree, k: nat, c: Path, q: Path)
    requires WellFormed(t) && Sane(t, es) && k <= |es| && UndoneTo(t, r, es, k)
    requires q in t && Below(c, q) && !Created(es, q)
    ensures c in r
  {
    AncestorsExist(t, q, |c|);
    hide Created, WellFormed;
    if JournaledTo(es, k, c) {
      var i :| 0 <= i < k && es[i].path == c;
      assert Settled(t, r, es, es[i]);
      assert HoldsForeign(t, es, c);
      assert Expected(t, es[i]);
    }
  }

  lemma ForeignMakesChild(t: Tree, es: seq<Entry>, r: Tree, k: nat, p: Path)
    requires WellFormed(t) && Sane(t, es) && k <= |es| && UndoneTo(t, r, es, k)
    requires HoldsForeign(t, es, p)
    ensures HasChild(r, p)
  {
    hide Sane, UndoneTo, Created;
    var q :| q in t && Below(p, q) && !Created(es, q);
    var c := q[..|p| + 1];
    assert Parent(c) == p;
    if c == q {
      NotCreatedIsKept(t, es, r, k, q);
    } else {
      CreatedAncestorIsKept(t, es, r, k, c, q);
    }
  }

  lemma ChildMeansForeign(t: Tree, es: seq<Entry>, r: Tree, k: nat)
    requires WellFormed(t) && Sane(t, es) && k < |es| && UndoneTo(t, r, es, k)
    requires !es[k].existed && HasChild(r, es[k].path)
    ensures HoldsForeign(t, es, es[k].path)
  {
    hide WellFormed;
    var p := es[k].path;
    var c :| c in r && c != [] && Parent(c) == p;
    assert Below(p, c);
    if JournaledTo(es, k, c) {
      var i :| 0 <= i < k && es[i].path == c;
      assert Ordered(es[i], es[k]);
      assert Settled(t, r, es, es[i]);
      var q :| q in t && Below(c, q) && !Created(es, q);
      assert Below(p, q) by { assert q[..|p|] == q[..|c|][..|p|]; }
    } else {
      assert forall i :: k < i < |es| ==> Ordered(es[k], es[i]);
    }
  }

  /** The directory above a journaled path is there when its turn comes. */
  lemma ParentStillThere(t: Tree, es: seq<Entry>, r: Tree, k: nat)
    requires WellFormed(t) && Sane(t, es) && k < |es| && UndoneTo(t, r, es, k)
    ensures es[k].path != [] && IsDirectory(r, Parent(es[k].path))
  {
    hide HoldsForeign, WellFormed;
    var e := es[k];
    assert Expected(t, e);
    var d := Parent(e.path);
    assert Below(d, e.path);
    if JournaledTo(es, k, d) {
      var i :| 0 <= i < k && es[i].path == d;
      assert Ordered(es[i], e);
      assert Settled(t, r, es, es[i]);
      assert Expected(t, es[i]);
    }
  }

  lemma OwnPathUntouched(t: Tree, es: seq<Entry>, r: Tree, k: nat)
    requires Sane(t, es) && k < |es| && UndoneTo(t, r, es, k)
    ensures SameAt(t, r, es[k].path)
  {
    hide HoldsForeign;
    forall i | 0 <= i < k ensures es[i].path != es[k].path {
      assert Ordered(es[i], es[k]);
    }
  }

  lemma TemporaryIsNew(t: Tree, es: seq<Entry>, w: World, r: Tree, k: nat)
    requires k < |es| && Quiet(t, es, w) && UndoneTo(t, r, es, k)
    ensures TemporaryName(es[k].path, w.suffixes[k]) !in r
  {
    hide HoldsForeign, TemporaryName, Settled;
    assert QuietAt(t, es, w, k);
    var tmp := TemporaryName(es[k].path, w.suffixes[k]);
    assert JournaledTo(es, k, tmp) ==> Journaled(es, tmp);
  }

  /** Undoing the next entry of a quiet rollback: only its own path changes, to what must be left there. */
  lemma StepSettles(t: Tree, es: seq<Entry>, w: World, r: Tree, k: nat)
    requires WellFormed(t) && Sane(t, es) && k < |es| && Quiet(t, es, w) && UndoneTo(t, r, es, k)
    ensures var step := Undo(r, es[k], w.faults[k], w.suffixes[k]);
      && Settled(t, step.tree, es, es[k])
      && (forall p :: p != es[k].path ==> SameAt(r, step.tree, p))
      && step.errors == ConflictAt(t, es, es[k])
      && step.ops == ReportAt(t, es, es[k])
  {
    var e := es[k];
    assert QuietAt(t, es, w, k) && Expected(t, e);
    ParentStillThere(t, es, r, k);
    OwnPathUntouched(t, es, r, k);
    TemporaryIsNew(t, es, w, r, k);
    if !e.existed {
      if HasChild(r, e.path) { ChildMeansForeign(t, es, r, k); }
      if HoldsForeign(t, es, e.path) {
        ForeignMakesChild(t, es, r, k, e.path);
        HolderExists(t, es, e.path);
      }
    }
    hide HoldsForeign, HasChild, WellFormed, UndoneTo, Sane, Quiet, TemporaryName, Journaled;
  }

  lemma HolderExists(t: Tree, es: seq<Entry>, p: Path)
    requires WellFormed(t) && HoldsForeign(t, es, p)
    ensures IsDirectory(t, p)
  {
    var q :| q in t && Below(p, q) && !Created(es, q);
    AncestorsExist(t, q, |p|);
  }

  /**
   * Rollback is exact: every restored file has its recorded content, every created path is
   * gone unless it is a directory that holds foreign content, nothing else has changed, and
   * the errors are one conflict for each such directory. The operations reported are the
   * files restored and the paths removed.
   */
  lemma {:induction false} RollbackIsExact(t: Tree, es: seq<Entry>, w: World, k: nat)
    requires WellFormed(t) && Sane(t, es) && Quiet(t, es, w) && k <= |es|
    ensures UndoneTo(t, UndoAll(t, es, w, k).tree, es, k)
    ensures UndoAll(t, es, w, k).errors == Conflicts(t, es, k)
    ensures UndoAll(t, es, w, k).ops == Reports(t, es, k)
  {
    hide UndoAll, UndoneTo, Sane, QuietAt, WellFormed, ConflictAt, ReportAt;
    if k == 0 {
      NothingUndone(t, es, w);
    } else {
      RollbackIsExact(t, es, w, k - 1);
      LastUndone(t, es, w, k);
    }
  }

  lemma LastUndone(t: Tree, es: seq<Entry>, w: World, k: nat)
    requires WellFormed(t) && Sane(t, es) && Quiet(t, es, w) && 0 < k <= |es|
    requires UndoneTo(t, UndoAll(t, es, w, k - 1).tree, es, k - 1)
    ensures UndoneTo(t, UndoAll(t, es, w, k).tree, es, k)
    ensures UndoAll(t, es, w, k).errors == UndoAll(t, es, w, k - 1).errors + ConflictAt(t, es, es[k - 1])
    ensures UndoAll(t, es, w, k).ops == UndoAll(t, es, w, k - 1).ops + ReportAt(t, es, es[k - 1])
  {
    hide UndoneTo, Sane, QuietAt, WellFormed, ConflictAt, ReportAt, Settled, SameAt, Undo;
    var r := UndoAll(t, es, w, k - 1).tree;
    StepSettles(t, es, w, r, k - 1);
    OneMoreUndone(t, es, r, UndoAll(t, es, w, k).tree, k);
  }

  lemma NothingUndone(t: Tree, es: seq<Entry>, w: World)
    requires Sane(t, es) && Quiet(t, es, w)
    ensures UndoneTo(t, UndoAll(t, es, w, 0).tree, es, 0) && UndoAll(t, es, w, 0).errors == Conflicts(t, es, 0)
    ensures UndoAll(t, es, w, 0).ops == Reports(t, es, 0)
  {
  }

  lemma OneMoreUndone(t: Tree, es: seq<Entry>, r: Tree, r': Tree, k: nat)
    requires 0 < k <= |es| && Sane(t, es) && UndoneTo(t, r, es, k - 1)
    requires Settled(t, r', es, es[k - 1])
    requires forall p :: p != es[k - 1].path ==> SameAt(r, r', p)
    ensures UndoneTo(t, r', es, k)
  {
    hide HoldsForeign;
    forall i | 0 <= i < k ensures Settled(t, r', es, es[i]) {
      if i < k - 1 {
        assert Ordered(es[i], es[k - 1]);
        assert Settled(t, r, es, es[i]);
        assert SameAt(r, r', es[i].path);
      }
    }
    forall p | !JournaledTo(es, k, p) ensures SameAt(t, r', p) {
      assert es[k - 1].path != p;
      assert !JournaledTo(es, k - 1, p);
      assert SameAt(r, r', p);
    }
  }

  // ---- Undoing one entry, whatever fails ----

  /** Something above the path is no directory. */
  ghost predicate Obstructed(t: Tree, p: Path) {
    exists n :: 0 <= n < |p| && p[..n] in t && !t[p[..n]].Directory?
  }

  lemma ObstructedByParent(t: Tree, p: Path)
    requires WellFormed(t) && p != []
    ensures Obstructed(t, p) <==> if Parent(p) in t then !t[Parent(p)].Directory? else Obstructed(t, Parent(p))
  {
    ObstructedSplits(t, p);
    hide Obstructed;
    if Parent(p) in t { NothingAbove(t, Parent(p)); }
  }

  lemma ObstructedSplits(t: Tree, p: Path)
    requires p != []
    ensures Obstructed(t, p) <==> (Parent(p) in t && !t[Parent(p)].Directory?) || Obstructed(t, Parent(p))
  {
    var d := Parent(p);
    assert p[..|p| - 1] == d;
    assert forall n :: 0 <= n < |d| ==> d[..n] == p[..n];
    if n :| 0 <= n < |d| && d[..n] in t && !t[d[..n]].Directory? { assert p[..n] in t; }
    if n :| 0 <= n < |p| && p[..n] in t && !t[p[..n]].Directory? { assert n < |d| ==> d[..n] == p[..n]; }
  }

  lemma NothingAbove(t: Tree, d: Path)
    requires WellFormed(t) && d in t
    ensures !Obstructed(t, d)
  {
    forall n | 0 <= n < |d| ensures d[..n] in t ==> t[d[..n]].Directory? { AncestorsExist(t, d, n); }
  }

  /** A path cannot be looked up exactly when something above it is no directory. */
  lemma {:induction false} LstatMeans(t: Tree, p: Path)
    requires WellFormed(t)
    ensures Lstat(t, p).NotADirectory? <==> p !in t && Obstructed(t, p)
    decreases |p|
  {
    hide Obstructed, WellFormed;
    if p == [] {
      assert !Obstructed(t, p) by { RootIsFree(t); }
    } else if p !in t {
      ObstructedByParent(t, p);
      if Parent(p) !in t { LstatMeans(t, Parent(p)); }
    }
  }

  lemma RootIsFree(t: Tree)
    ensures !Obstructed(t, [])
  {
  }

  /**
   * Restoring one file: it succeeds exactly when nothing fails from outside, its directory
   * stands, nothing but a file is in its place and the temporary name is free; then the
   * file has its old content. Otherwise its path is as it was, one failure says why, and
   * at most the temporary name is left or cleared.
   */
  lemma RestoreAnswers(t: Tree, e: Entry, fault: Fault, suffix: string)
    requires WellFormed(t) && e.path != [] && e.existed && e.content.Some?
    ensures var step, tmp := Undo(t, e, fault, suffix), TemporaryName(e.path, suffix);
      var placeable := e.path !in t || t[e.path].File?;
      var reached := !fault.StatFails? && placeable && IsDirectory(t, Parent(e.path)) && tmp !in t;
      && (step.errors == [] <==> reached && !fault.WriteFails? && !fault.RenameFails?)
      && (step.errors == [] ==> step == Undoing(t[e.path := File(e.content.value)], [FileOp(e.path, Written)], []))
      && (step.errors != [] ==>
            && step.ops == []
            && step.errors == [Failure(e.path,
                 if !fault.StatFails? && e.path in t && t[e.path].Symlink? then RestoreSymlink
                 else if !fault.StatFails? && e.path in t && t[e.path].Directory? then RestoreTypeChanged
                 else System)]
            && step.tree ==
                 if reached && fault.left.Some? then t[tmp := File(fault.left.value)]
                 else if !fault.StatFails? && placeable && tmp in t && !t[tmp].Directory? then Removing(t, tmp)
                 else t)
  {
    LstatMeans(t, e.path);
    TemporaryIsAnother(e.path, suffix);
    hide Lstat, TemporaryName;
    if IsDirectory(t, Parent(e.path)) && e.path !in t { NoFileAbove(t, e.path); }
    assert TemporaryName(e.path, suffix) in t ==> IsDirectory(t, Parent(e.path));
  }

  lemma NoFileAbove(t: Tree, p: Path)
    requires WellFormed(t) && p != [] && IsDirectory(t, Parent(p))
    ensures !Obstructed(t, p)
  {
    forall n | 0 <= n < |p| && p[..n] in t ensures t[p[..n]].Directory? {
      if n < |p| - 1 {
        AncestorsExist(t, Parent(p), n);
        assert Parent(p)[..n] == p[..n];
      }
    }
  }

  /**
   * Removing one created path: nothing is there, or it is removed, exactly when nothing
   * fails from outside, it is what was created and is no directory with content.
   * Otherwise nothing changes, and one failure says why.
   */
  lemma RemoveAnswers(t: Tree, e: Entry, fault: Fault, suffix: string)
    requires WellFormed(t) && e.path != [] && !e.existed
    ensures var step := Undo(t, e, fault, suffix);
      var absent := e.path !in t && !Obstructed(t, e.path);
      var asCreated := e.path in t && (if e.kind.DirectoryKind? then t[e.path].Directory? else t[e.path].File?);
      var full := asCreated && e.kind.DirectoryKind? && exists q :: q in t && q != [] && Parent(q) == e.path;
      && (step.errors == [] <==> !fault.StatFails? && (absent || (asCreated && !full && !fault.RemoveFails?)))
      && (step.errors == [] ==>
            step == if absent then Undoing(t, [], []) else Undoing(Removing(t, e.path), [FileOp(e.path, Removed)], []))
      && (step.errors != [] ==>
            step == Undoing(t, [], [Failure(e.path,
              if fault.StatFails? || e.path !in t then System
              else if t[e.path].Symlink? then RemoveSymlink
              else if !asCreated then RemoveTypeChanged
              else if fault.RemoveFails? then System
              else DirectoryNotEmpty)]))
  {
    LstatMeans(t, e.path);
    hide Lstat;
  }
}
