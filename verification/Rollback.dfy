/**
 * Installer rollback (src/cli/install-helpers-rollback.ts): undo a journal of file-system
 * changes over a tree of files, directories and symbolic links.
 */
module Rollback {
  import opened Results

  type Path = seq<string>
  type Content = seq<bv8>

  datatype Node = File(content: Content) | Directory | Symlink

  type Tree = map<Path, Node>

  function Parent(p: Path): Path
    requires p != []
  {
    p[..|p| - 1]
  }

  predicate IsDirectory(t: Tree, p: Path) {
    p in t && t[p].Directory?
  }

  ghost predicate WellFormed(t: Tree) {
    IsDirectory(t, []) && forall p :: p in t && p != [] ==> IsDirectory(t, Parent(p))
  }

  predicate Below(p: Path, q: Path) {
    |p| < |q| && q[..|p|] == p
  }

  predicate SameAt(t: Tree, r: Tree, p: Path) {
    (p in r <==> p in t) && (p in t ==> r[p] == t[p])
  }

  // ---- Entries and their undoing ----

  datatype Kind = FileKind | DirectoryKind

  datatype Entry = Entry(path: Path, existed: bool, kind: Kind, content: Option<Content>, sequence: nat)

  datatype Action = Written | Removed
  datatype FileOp = FileOp(path: Path, action: Action)

  datatype Problem =
    | RestoreSymlink
    | RestoreTypeChanged
    | RemoveSymlink
    | RemoveTypeChanged
    | DirectoryNotEmpty
    | System

  datatype Failure = Failure(path: Path, problem: Problem)

  /** A failure from outside the tree; `left` is a temporary file that could not be removed either. */
  datatype Fault = NoFault | StatFails | WriteFails(left: Option<Content>) | RenameFails(left: Option<Content>) | RemoveFails

  datatype Undoing = Undoing(tree: Tree, ops: seq<FileOp>, errors: seq<Failure>)

  datatype Lookup = Found(node: Node) | NoEntry | NotADirectory

  /** lstat on a path none of whose ancestors is a symbolic link. */
  function Lstat(t: Tree, p: Path): (found: Lookup)
    ensures found.Found? <==> p in t
    ensures found.Found? ==> found.node == t[p]
  {
    if p in t then Found(t[p])
    else if p == [] then NoEntry
    else if Parent(p) in t then (if t[Parent(p)].Directory? then NoEntry else NotADirectory)
    else match Lstat(t, Parent(p)) case Found(_) => NoEntry case error => error
  }

  /** The temporary sibling of a path; the suffix carries the process and a random identifier. */
  function TemporaryName(p: Path, suffix: string): Path
    requires p != []
  {
    Parent(p) + [p[|p| - 1] + ".rollback." + suffix]
  }

  ghost predicate HasChild(t: Tree, p: Path) {
    exists q :: q in t && q != [] && Parent(q) == p
  }

  predicate HasChildAmong(t: Tree, p: Path) {
    exists q | q in t.Keys :: q != [] && Parent(q) == p
  }

  function Removing(t: Tree, p: Path): Tree {
    map q | q in t && q != p :: t[q]
  }

  function LeftOver(t: Tree, p: Path, left: Option<Content>): Tree {
    if left.Some? then t[p := File(left.value)] else t
  }

  /** Undoing one entry: the tree, the operations reported and the failures reported. */
  ghost function Undo(t: Tree, e: Entry, fault: Fault, suffix: string): Undoing
    requires e.path != []
  {
    if e.existed && e.content.Some? then
      var tmp := TemporaryName(e.path, suffix);
      if fault.StatFails? then Undoing(t, [], [Failure(e.path, System)])
      else match Lstat(t, e.path) {
        case NotADirectory => Undoing(t, [], [Failure(e.path, System)])
        case Found(Symlink) => Undoing(t, [], [Failure(e.path, RestoreSymlink)])
        case Found(Directory) => Undoing(t, [], [Failure(e.path, RestoreTypeChanged)])
        case _ =>
          if !IsDirectory(t, Parent(e.path)) || tmp in t then
            Undoing(if tmp in t && !t[tmp].Directory? then Removing(t, tmp) else t, [], [Failure(e.path, System)])
          else if fault.WriteFails? || fault.RenameFails? then
            Undoing(LeftOver(t, tmp, fault.left), [], [Failure(e.path, System)])
          else Undoing(t[e.path := File(e.content.value)], [FileOp(e.path, Written)], [])
      }
    else if e.existed then Undoing(t, [], [])
    else if fault.StatFails? then Undoing(t, [], [Failure(e.path, System)])
    else match Lstat(t, e.path) {
      case NoEntry => Undoing(t, [], [])
      case NotADirectory => Undoing(t, [], [Failure(e.path, System)])
      case Found(Symlink) => Undoing(t, [], [Failure(e.path, RemoveSymlink)])
      case Found(node) =>
        if node.Directory? != e.kind.DirectoryKind? then Undoing(t, [], [Failure(e.path, RemoveTypeChanged)])
        else if fault.RemoveFails? then Undoing(t, [], [Failure(e.path, System)])
        else if node.Directory? && HasChild(t, e.path) then Undoing(t, [], [Failure(e.path, DirectoryNotEmpty)])
        else Undoing(Removing(t, e.path), [FileOp(e.path, Removed)], [])
    }
  }

  /** What can go wrong at each entry, and the suffix of its temporary file. */
  datatype World = World(faults: seq<Fault>, suffixes: seq<string>)

  ghost predicate Covers(w: World, es: seq<Entry>) {
    |w.faults| == |es| == |w.suffixes| && forall e :: e in es ==> e.path != []
  }

  /** Undoing the first `k` entries in order. */
  ghost function UndoAll(t: Tree, es: seq<Entry>, w: World, k: nat): Undoing
    requires Covers(w, es) && k <= |es|
  {
    if k == 0 then Undoing(t, [], [])
    else
      var before := UndoAll(t, es, w, k - 1);
      var step := Undo(before.tree, es[k - 1], w.faults[k - 1], w.suffixes[k - 1]);
      Undoing(step.tree, before.ops + step.ops, before.errors + step.errors)
  }

  // ---- Ordering ----

  /** Stable insertion into a list in descending order. */
  function Insert(es: seq<Entry>, e: Entry): seq<Entry> {
    if es == [] || es[|es| - 1].sequence >= e.sequence then es + [e]
    else Insert(es[..|es| - 1], e) + [es[|es| - 1]]
  }

  /** The stable descending sort by sequence. */
  function Descending(es: seq<Entry>): seq<Entry> {
    if es == [] then [] else Insert(Descending(es[..|es| - 1]), es[|es| - 1])
  }

  ghost predicate NewestFirst(es: seq<Entry>) {
    forall i, j :: 0 <= i < j < |es| ==> es[i].sequence >= es[j].sequence
  }

  lemma {:induction false} InsertKeeps(es: seq<Entry>, e: Entry)
    ensures multiset(Insert(es, e)) == multiset(es) + multiset{e}
    ensures forall x :: x in Insert(es, e) <==> x in es || x == e
  {
    if es != [] {
      var init, last := es[..|es| - 1], es[|es| - 1];
      assert es == init + [last];
      InsertKeeps(init, e);
    }
  }

  lemma {:induction false} InsertSorts(es: seq<Entry>, e: Entry)
    requires NewestFirst(es)
    ensures NewestFirst(Insert(es, e))
  {
    if es != [] && es[|es| - 1].sequence < e.sequence {
      var init, last := es[..|es| - 1], es[|es| - 1];
      InsertKeeps(init, e);
      InsertSorts(init, e);
      var longer := Insert(init, e);
      hide Insert;
      forall i | 0 <= i < |longer| ensures longer[i].sequence >= last.sequence {
        assert longer[i] in longer;
      }
    }
  }

  /** Sorting gives the same entries, newest first. */
  lemma {:induction false} DescendingSorts(es: seq<Entry>)
    ensures NewestFirst(Descending(es)) && multiset(Descending(es)) == multiset(es)
  {
    if es != [] {
      var init, last := es[..|es| - 1], es[|es| - 1];
      DescendingSorts(init);
      InsertSorts(Descending(init), last);
      InsertKeeps(Descending(init), last);
      assert es == init + [last];
    }
  }

  class Installation {
    var tree: Tree
    var ops: seq<FileOp>
    var errors: seq<Failure>

    constructor (t: Tree)
      ensures tree == t && ops == [] && errors == []
    {
      tree, ops, errors := t, [], [];
    }

    /** rollbackArtifacts; `w` is indexed by position in the sorted list. */
    method RollbackArtifacts(entries: seq<Entry>, w: World)
      requires Covers(w, Descending(entries))
      modifies this
      ensures var r := UndoAll(old(tree), Descending(entries), w, |Descending(entries)|);
        tree == r.tree && ops == old(ops) + r.ops && errors == old(errors) + r.errors
    {
      hide Undo, Descending;
      var sorted := Descending(entries);
      for k := 0 to |sorted|
        invariant var r := UndoAll(old(tree), sorted, w, k);
          tree == r.tree && ops == old(ops) + r.ops && errors == old(errors) + r.errors
      {
        var e := sorted[k];
        if e.existed && e.content.Some? {
          RestoreFileFromSnapshot(e, w.faults[k], w.suffixes[k]);
        } else if !e.existed {
          RemoveNewlyCreatedEntry(e, w.faults[k], w.suffixes[k]);
        } else {
          ExistingDirectoryIsLeft(tree, e, w.faults[k], w.suffixes[k]);
        }
      }
    }

    method RestoreFileFromSnapshot(e: Entry, fault: Fault, suffix: string)
      requires e.path != [] && e.existed && e.content.Some?
      modifies this
      ensures var r := Undo(old(tree), e, fault, suffix);
        tree == r.tree && ops == old(ops) + r.ops && errors == old(errors) + r.errors
    {
      if fault.StatFails? {
        errors := errors + [Failure(e.path, System)];
        return;
      }
      var target := Lstat(tree, e.path);
      if target.NotADirectory? {
        errors := errors + [Failure(e.path, System)];
        return;
      }
      if target.Found? && target.node.Symlink? {
        errors := errors + [Failure(e.path, RestoreSymlink)];
        return;
      }
      if target.Found? && !target.node.File? {
        errors := errors + [Failure(e.path, RestoreTypeChanged)];
        return;
      }
      var tmp := TemporaryName(e.path, suffix);
      var wrote := IsDirectory(tree, Parent(e.path)) && tmp !in tree;
      if wrote && !fault.WriteFails? {
        tree := tree[tmp := File(e.content.value)];
        if !fault.RenameFails? {
          tree := Removing(tree, tmp)[e.path := File(e.content.value)];
          TemporaryIsAnother(e.path, suffix);
          assert tree == old(tree)[e.path := File(e.content.value)];
          ops := ops + [FileOp(e.path, Written)];
          return;
        }
      }
      if wrote {
        tree := LeftOver(Removing(tree, tmp), tmp, fault.left);
        assert tree == LeftOver(old(tree), tmp, fault.left);
      } else if tmp in tree && !tree[tmp].Directory? {
        tree := Removing(tree, tmp);
      }
      errors := errors + [Failure(e.path, System)];
    }

    method RemoveNewlyCreatedEntry(e: Entry, fault: Fault, suffix: string)
      requires e.path != [] && !e.existed
      modifies this
      ensures var r := Undo(old(tree), e, fault, suffix);
        tree == r.tree && ops == old(ops) + r.ops && errors == old(errors) + r.errors
    {
      if fault.StatFails? {
        errors := errors + [Failure(e.path, System)];
        return;
      }
      var target := Lstat(tree, e.path);
      if target.NoEntry? { return; }
      var problem: Option<Problem> := None;
      if target.NotADirectory? {
        problem := Some(System);
      } else if target.node.Symlink? {
        problem := Some(RemoveSymlink);
      } else if (e.kind.FileKind? && !target.node.File?) || (e.kind.DirectoryKind? && !target.node.Directory?) {
        problem := Some(RemoveTypeChanged);
      } else if fault.RemoveFails? {
        problem := Some(System);
      } else if e.kind.DirectoryKind? && HasChildAmong(tree, e.path) {
        problem := Some(DirectoryNotEmpty);
      }
      if problem.Some? {
        errors := errors + [Failure(e.path, problem.value)];
        return;
      }
      tree := Removing(tree, e.path);
      ops := ops + [FileOp(e.path, Removed)];
    }
  }

  lemma ExistingDirectoryIsLeft(t: Tree, e: Entry, fault: Fault, suffix: string)
    requires e.path != [] && e.existed && e.content.None?
    ensures Undo(t, e, fault, suffix) == Undoing(t, [], [])
  {
  }

  lemma TemporaryIsAnother(p: Path, suffix: string)
    requires p != []
    ensures TemporaryName(p, suffix) != p
    ensures TemporaryName(p, suffix) != [] && Parent(TemporaryName(p, suffix)) == Parent(p)
  {
    var tmp := TemporaryName(p, suffix);
    assert |tmp[|p| - 1]| > |p[|p| - 1]|;
  }

  // ---- What is never touched ----

  ghost predicate Journaled(es: seq<Entry>, p: Path) {
    exists i :: 0 <= i < |es| && es[i].path == p
  }

  ghost predicate Temporary(es: seq<Entry>, w: World, p: Path)
    requires Covers(w, es)
  {
    exists i :: 0 <= i < |es| && es[i].existed && es[i].content.Some? && TemporaryName(es[i].path, w.suffixes[i]) == p
  }

  /**
   * Whatever the tree has become and whatever fails, rollback leaves every path alone that
   * is neither journaled nor the temporary name of a journaled file.
   */
  lemma {:induction false} UnjournaledUntouched(t: Tree, es: seq<Entry>, w: World, k: nat, p: Path)
    requires Covers(w, es) && k <= |es|
    requires !Journaled(es, p) && !Temporary(es, w, p)
    ensures SameAt(t, UndoAll(t, es, w, k).tree, p)
  {
    hide Undo;
    if k > 0 {
      UnjournaledUntouched(t, es, w, k - 1, p);
      UndoTouchesTwoPaths(UndoAll(t, es, w, k - 1).tree, es[k - 1], w.faults[k - 1], w.suffixes[k - 1], p);
    }
  }

  lemma UndoTouchesTwoPaths(t: Tree, e: Entry, fault: Fault, suffix: string, p: Path)
    requires e.path != [] && p != e.path
    requires e.existed && e.content.Some? ==> p != TemporaryName(e.path, suffix)
    ensures SameAt(t, Undo(t, e, fault, suffix).tree, p)
  {
    hide Lstat, HasChild, TemporaryName;
  }

  lemma RemovingKeepsWellFormed(t: Tree, p: Path)
    requires WellFormed(t) && p != []
    requires HasChild(t, p) ==> p in t && !t[p].Directory?
    ensures WellFormed(Removing(t, p))
  {
    var r := Removing(t, p);
    forall q | q in r && q != [] ensures IsDirectory(r, Parent(q)) {
      assert IsDirectory(t, Parent(q));
    }
  }

  lemma FileKeepsWellFormed(t: Tree, p: Path, content: Content)
    requires WellFormed(t) && p != [] && IsDirectory(t, Parent(p)) && !IsDirectory(t, p)
    ensures WellFormed(t[p := File(content)])
  {
    var r := t[p := File(content)];
    forall q | q in r && q != [] ensures IsDirectory(r, Parent(q)) {
      assert IsDirectory(t, Parent(q));
    }
  }

  /** Undoing keeps the tree a tree: no entry is ever left without its directory. */
  lemma UndoKeepsWellFormed(t: Tree, e: Entry, fault: Fault, suffix: string)
    requires WellFormed(t) && e.path != []
    ensures WellFormed(Undo(t, e, fault, suffix).tree)
  {
    if e.existed {
      RestoringKeepsWellFormed(t, e, fault, suffix);
    } else {
      ChildNeedsDirectory(t, e.path);
      hide WellFormed, HasChild, Lstat, Removing;
      if e.path in t && (HasChild(t, e.path) ==> !t[e.path].Directory?) {
        RemovingKeepsWellFormed(t, e.path);
      }
    }
  }

  lemma RestoringKeepsWellFormed(t: Tree, e: Entry, fault: Fault, suffix: string)
    requires WellFormed(t) && e.path != [] && e.existed
    ensures WellFormed(Undo(t, e, fault, suffix).tree)
  {
    var tmp := TemporaryName(e.path, suffix);
    TemporaryIsAnother(e.path, suffix);
    ChildNeedsDirectory(t, tmp);
    hide WellFormed, HasChild, Lstat, Removing, TemporaryName;
    if tmp in t && !t[tmp].Directory? {
      RemovingKeepsWellFormed(t, tmp);
    }
    if IsDirectory(t, Parent(e.path)) && !IsDirectory(t, e.path) && e.content.Some? {
      FileKeepsWellFormed(t, e.path, e.content.value);
    }
    if IsDirectory(t, Parent(tmp)) && tmp !in t && (fault.WriteFails? || fault.RenameFails?) && fault.left.Some? {
      FileKeepsWellFormed(t, tmp, fault.left.value);
    }
  }

  lemma ChildNeedsDirectory(t: Tree, p: Path)
    requires WellFormed(t)
    ensures HasChild(t, p) ==> IsDirectory(t, p)
  {
  }
}
