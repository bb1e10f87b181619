/**
 * The mutation journal of an installation (src/cli/install-transaction.ts:247-271) and what
 * rolling a failed installation back restores, over all installation runs.
 */
module InstallJournal {
  import opened Results
  import opened Rollback
  import opened RollbackTheorems

  // ---- The journal ----

  /** The first entry recorded for each path, in recording order. */
  function Firsts(log: seq<Entry>): seq<Entry> {
    if log == [] then []
    else
      var before, e := Firsts(log[..|log| - 1]), log[|log| - 1];
      if Mentions(before, e.path) then before else before + [e]
  }

  predicate Mentions(es: seq<Entry>, p: Path) {
    exists i | 0 <= i < |es| :: es[i].path == p
  }

  ghost predicate KindConflict(log: seq<Entry>) {
    exists i, j :: 0 <= i < j < |log| && log[i].path == log[j].path && log[i].kind != log[j].kind
  }

  class MutationJournal {
    var entries: seq<Entry>

    constructor ()
      ensures entries == []
    {
      entries := [];
    }

    method Record(e: Entry) returns (complete: Entry)
      modifies this
      ensures complete == e.(sequence := |old(entries)|)
      ensures entries == old(entries) + [complete]
    {
      complete := e.(sequence := |entries|);
      entries := entries + [complete];
    }

    /** One entry a path, newest first; or the path recorded with two kinds. */
    method Deduplicated() returns (result: Result<seq<Entry>, Path>)
      ensures result.Err? <==> KindConflict(entries)
      ensures result.Ok? ==> result.value == Descending(Firsts(entries))
    {
      hide Descending, KindConflict, FirstAgrees;
      var byPath: seq<Entry> := [];
      for n := 0 to |entries|
        invariant byPath == Firsts(entries[..n])
        invariant forall k :: 0 <= k < n ==> FirstAgrees(byPath, entries[k])
      {
        assert entries[..n + 1][..n] == entries[..n];
        var e := entries[n];
        if i :| 0 <= i < |byPath| && byPath[i].path == e.path {
          if byPath[i].kind != e.kind {
            ConflictFound(entries, n, i);
            return Err(e.path);
          }
          Agrees(byPath, i, e);
        } else {
          FirstStaysFirst(entries, n, byPath);
          byPath := byPath + [e];
        }
      }
      assert entries[..|entries|] == entries;
      AgreementIsConsistent(entries);
      result := Ok(Descending(byPath));
    }
  }

  lemma ConflictFound(log: seq<Entry>, n: nat, i: nat)
    requires n < |log| && i < |Firsts(log[..n])|
    requires Firsts(log[..n])[i].path == log[n].path && Firsts(log[..n])[i].kind != log[n].kind
    ensures KindConflict(log)
  {
    FirstsDistinct(log[..n]);
    hide Firsts;
    var e := Firsts(log[..n])[i];
    assert e in log[..n];
    var k :| 0 <= k < n && log[k] == e;
  }

  lemma Agrees(firsts: seq<Entry>, i: nat, e: Entry)
    requires i < |firsts| && firsts[i].path == e.path && firsts[i].kind == e.kind
    ensures FirstAgrees(firsts, e)
  {
  }

  lemma FirstStaysFirst(log: seq<Entry>, n: nat, firsts: seq<Entry>)
    requires n < |log|
    requires forall k :: 0 <= k < n ==> FirstAgrees(firsts, log[k])
    ensures forall k :: 0 <= k < n + 1 ==> FirstAgrees(firsts + [log[n]], log[k])
  {
    Agrees(firsts + [log[n]], |firsts|, log[n]);
    forall k | 0 <= k < n ensures FirstAgrees(firsts + [log[n]], log[k]) {
      assert FirstAgrees(firsts, log[k]);
      var i :| 0 <= i < |firsts| && firsts[i].path == log[k].path && firsts[i].kind == log[k].kind;
      Agrees(firsts + [log[n]], i, log[k]);
    }
  }

  ghost predicate FirstAgrees(firsts: seq<Entry>, e: Entry) {
    exists i :: 0 <= i < |firsts| && firsts[i].path == e.path && firsts[i].kind == e.kind
  }

  ghost predicate Distinct(es: seq<Entry>) {
    forall i, j :: 0 <= i < j < |es| ==> es[i].path != es[j].path
  }

  lemma {:induction false} FirstsDistinct(log: seq<Entry>)
    ensures Distinct(Firsts(log))
    ensures forall e :: e in Firsts(log) ==> e in log
  {
    if log != [] {
      FirstsDistinct(log[..|log| - 1]);
    }
  }

  lemma AgreementIsConsistent(log: seq<Entry>)
    requires forall k :: 0 <= k < |log| ==> FirstAgrees(Firsts(log), log[k])
    ensures !KindConflict(log)
  {
    FirstsDistinct(log);
    var firsts := Firsts(log);
    hide Firsts;
    forall i, j | 0 <= i < j < |log| && log[i].path == log[j].path ensures log[i].kind == log[j].kind {
      var a :| 0 <= a < |firsts| && firsts[a].path == log[i].path && firsts[a].kind == log[i].kind;
      var b :| 0 <= b < |firsts| && firsts[b].path == log[j].path && firsts[b].kind == log[j].kind;
    }
  }

  // ---- Order ----

  function Reversed(es: seq<Entry>): (r: seq<Entry>)
    ensures |r| == |es| && forall i :: 0 <= i < |es| ==> r[i] == es[|es| - 1 - i]
  {
    seq(|es|, i requires 0 <= i < |es| => es[|es| - 1 - i])
  }

  ghost predicate Ascending(es: seq<Entry>) {
    forall i, j :: 0 <= i < j < |es| ==> es[i].sequence < es[j].sequence
  }

  lemma {:induction false} InsertLargest(es: seq<Entry>, e: Entry)
    requires forall x :: x in es ==> x.sequence < e.sequence
    ensures Insert(es, e) == [e] + es
  {
    if es != [] {
      InsertLargest(es[..|es| - 1], e);
      assert es == es[..|es| - 1] + [es[|es| - 1]];
    }
  }

  lemma ReversedSnoc(es: seq<Entry>, e: Entry)
    ensures Reversed(es + [e]) == [e] + Reversed(es)
  {
  }

  lemma AscendingSnoc(es: seq<Entry>, e: Entry)
    requires Ascending(es + [e])
    ensures Ascending(es) && forall x :: x in es ==> x.sequence < e.sequence
  {
    assert forall i :: 0 <= i < |es| ==> (es + [e])[i] == es[i];
    assert (es + [e])[|es|] == e;
  }

  /** Sorting entries in recording order reverses them. */
  lemma {:induction false} DescendingReverses(es: seq<Entry>)
    requires Ascending(es)
    ensures Descending(es) == Reversed(es)
  {
    if es != [] {
      hide Ascending, Insert;
      var init, e := es[..|es| - 1], es[|es| - 1];
      assert es == init + [e];
      AscendingSnoc(init, e);
      DescendingReverses(init);
      InsertLargest(Reversed(init), e);
      ReversedSnoc(init, e);
    }
  }

  /** Sorting them again changes nothing. */
  lemma {:induction false} DescendingIsStable(es: seq<Entry>)
    requires Ascending(es)
    ensures Descending(Reversed(es)) == Reversed(es)
  {
    hide Ascending, Descending;
    forall k | 0 <= k <= |es| ensures Descending(Reversed(es)[..k]) == Reversed(es)[..k] {
      DescendingPrefix(es, k);
    }
    assert Reversed(es)[..|es|] == Reversed(es);
  }

  lemma {:induction false} DescendingPrefix(es: seq<Entry>, k: nat)
    requires Ascending(es) && k <= |es|
    ensures Descending(Reversed(es)[..k]) == Reversed(es)[..k]
  {
    if k > 0 {
      DescendingPrefix(es, k - 1);
      hide Descending, Ascending, Reversed;
      if k > 1 { ReversedFalls(es, k); }
      var r := Reversed(es);
      assert r[..k] == r[..k - 1] + [r[k - 1]];
      DescendingSnoc(r[..k - 1], r[k - 1]);
    }
  }

  lemma ReversedFalls(es: seq<Entry>, k: nat)
    requires Ascending(es) && 1 < k <= |es|
    ensures Reversed(es)[k - 2].sequence > Reversed(es)[k - 1].sequence
  {
    assert Reversed(es)[k - 2] == es[|es| - k + 1] && Reversed(es)[k - 1] == es[|es| - k];
  }

  lemma DescendingSnoc(es: seq<Entry>, e: Entry)
    requires Descending(es) == es && (es == [] || es[|es| - 1].sequence >= e.sequence)
    ensures Descending(es + [e]) == es + [e]
  {
    assert (es + [e])[..|es|] == es;
  }

  // ---- Installation runs ----

  datatype Site = Site(tree: Tree, log: seq<Entry>)

  /** snapshotForRollback: what is at a path before it is touched. */
  function Snapshot(t: Tree, p: Path, kind: Kind): Option<Entry> {
    match Lstat(t, p)
    case NoEntry => Some(Entry(p, false, kind, None, 0))
    case NotADirectory => None
    case Found(File(content)) => if kind.FileKind? then Some(Entry(p, true, kind, Some(content), 0)) else None
    case Found(Directory) => if kind.DirectoryKind? then Some(Entry(p, true, kind, None, 0)) else None
    case Found(Symlink) => None
  }

  /** The journal gains an entry for the path: a snapshot, unless the path is journaled already. */
  ghost predicate Journals(s: Site, s': Site, p: Path, kind: Kind) {
    && |s'.log| == |s.log| + 1 && s'.log[..|s.log|] == s.log
    && var e := s'.log[|s.log|];
    && e.path == p && e.kind == kind && e.sequence == |s.log|
    && (Mentions(Firsts(s.log), p) || Some(e.(sequence := 0)) == Snapshot(s.tree, p, kind))
    && forall x :: x in s.log && x.path == p ==> x.kind == kind
  }

  /** What the installer does to a path, journaled as its own. */
  ghost predicate Installs(s: Site, s': Site, p: Path) {
    && p != [] && IsDirectory(s.tree, Parent(p))
    && (|| (Journals(s, s', p, DirectoryKind) && p !in s.tree && s'.tree == s.tree[p := Directory])
        || (Journals(s, s', p, DirectoryKind) && IsDirectory(s.tree, p) && s'.tree == s.tree)
        || (Journals(s, s', p, FileKind) && Replaceable(s.tree, p) && exists content :: WritesFile(s, s', p, content))
        || (Journals(s, s', p, FileKind) && Replaceable(s.tree, p) && s'.tree == Removing(s.tree, p)))
  }

  predicate Replaceable(t: Tree, p: Path) {
    p in t ==> t[p].File?
  }

  ghost predicate WritesFile(s: Site, s': Site, p: Path, content: Content) {
    s'.tree == s.tree[p := File(content)]
  }

  /** Paths other programs write at; whatever lies below such a path is theirs too. */
  ghost predicate Territory(foreign: Path -> bool) {
    forall p, q :: foreign(p) && Below(p, q) ==> foreign(q)
  }

  ghost predicate Intrudes(s: Site, s': Site, foreign: Path -> bool) {
    && s'.log == s.log && WellFormed(s'.tree)
    && forall p :: !foreign(p) ==> SameAt(s.tree, s'.tree, p)
  }

  ghost predicate Step(s: Site, s': Site, foreign: Path -> bool) {
    || (exists p :: !foreign(p) && Installs(s, s', p))
    || Intrudes(s, s', foreign)
  }

  ghost predicate StepAt(run: seq<Site>, i: nat, foreign: Path -> bool)
    requires i + 1 < |run|
  {
    Step(run[i], run[i + 1], foreign)
  }

  ghost predicate IsRun(run: seq<Site>, foreign: Path -> bool) {
    && run != [] && run[0].log == [] && WellFormed(run[0].tree) && Territory(foreign)
    && forall i :: 0 <= i < |run| - 1 ==> StepAt(run, i, foreign)
  }

  // ---- The invariant ----

  /** The entry records what the path was at the start, and the path is still as expected. */
  ghost predicate Faithful(t0: Tree, t: Tree, e: Entry) {
    && Expected(t, e)
    && (e.existed <==> e.path in t0)
    && (e.existed && e.content.Some? ==> t0[e.path] == File(e.content.value))
    && (e.existed ==> (e.content.Some? <==> e.kind.FileKind?))
    && (e.existed && e.content.None? ==> IsDirectory(t0, e.path) && IsDirectory(t, e.path))
  }

  ghost predicate ParentsFirst(es: seq<Entry>) {
    forall i, j :: 0 <= i < j < |es| && !es[j].existed ==> !Below(es[j].path, es[i].path)
  }

  /** Entries of different paths in recording order, parents before what the installer put below them. */
  ghost predicate InOrder(es: seq<Entry>, next: nat) {
    && Distinct(es) && ParentsFirst(es) && Ascending(es)
    && forall e :: e in es ==> e.sequence < next
  }

  ghost predicate AllFaithful(t0: Tree, t: Tree, es: seq<Entry>, foreign: Path -> bool) {
    forall e :: e in es ==> !foreign(e.path) && Faithful(t0, t, e)
  }

  /** Paths neither foreign nor journaled are as they were. */
  ghost predicate RestUnchanged(t0: Tree, t: Tree, es: seq<Entry>, foreign: Path -> bool) {
    forall p :: !foreign(p) && !Mentions(es, p) ==> SameAt(t0, t, p)
  }

  ghost predicate Inv(t0: Tree, s: Site, foreign: Path -> bool) {
    && WellFormed(s.tree)
    && RestUnchanged(t0, s.tree, Firsts(s.log), foreign)
    && AllFaithful(t0, s.tree, Firsts(s.log), foreign)
    && InOrder(Firsts(s.log), |s.log|)
  }

  lemma IntrusionKeeps(t0: Tree, s: Site, s': Site, foreign: Path -> bool)
    requires Territory(foreign) && Inv(t0, s, foreign) && Intrudes(s, s', foreign)
    ensures Inv(t0, s', foreign)
  {
    hide WellFormed;
    forall e | e in Firsts(s.log) ensures Faithful(t0, s'.tree, e) {
      assert Faithful(t0, s.tree, e);
      assert Below(Parent(e.path), e.path);
      assert !foreign(Parent(e.path));
    }
  }

  /** The tree after the installer acted at one path is a tree, and the same elsewhere. */
  lemma InstallShape(s: Site, s': Site, p: Path)
    requires WellFormed(s.tree) && Installs(s, s', p)
    ensures WellFormed(s'.tree)
    ensures forall q :: q != p ==> SameAt(s.tree, s'.tree, q)
    ensures IsDirectory(s.tree, p) ==> IsDirectory(s'.tree, p)
  {
    hide Journals;
    if s'.tree == Removing(s.tree, p) {
      ChildNeedsDirectory(s.tree, p);
      if Replaceable(s.tree, p) { RemovingKeepsWellFormed(s.tree, p); }
    } else if content :| WritesFile(s, s', p, content) {
      if !IsDirectory(s.tree, p) { FileKeepsWellFormed(s.tree, p, content); }
    } else if p !in s.tree {
      DirectoryKeepsWellFormed(s.tree, p);
    }
  }

  lemma DirectoryKeepsWellFormed(t: Tree, p: Path)
    requires WellFormed(t) && p != [] && IsDirectory(t, Parent(p))
    ensures WellFormed(t[p := Directory])
  {
    var r := t[p := Directory];
    forall q | q in r && q != [] ensures IsDirectory(r, Parent(q)) {
      assert q in t ==> IsDirectory(t, Parent(q));
    }
  }

  /** The installer leaves at the path what the journaled kind says. */
  lemma InstalledKind(s: Site, s': Site, p: Path)
    requires Installs(s, s', p)
    ensures |s'.log| == |s.log| + 1 && s'.log[|s.log|].path == p
    ensures p in s'.tree ==> if s'.log[|s.log|].kind.DirectoryKind? then s'.tree[p].Directory? else s'.tree[p].File?
  {
  }

  lemma FirstsExtend(log: seq<Entry>, log': seq<Entry>)
    requires |log'| == |log| + 1 && log'[..|log|] == log
    ensures Firsts(log') ==
      if Mentions(Firsts(log), log'[|log|].path) then Firsts(log) else Firsts(log) + [log'[|log|]]
  {
  }

  /** Everything journaled before stays faithful when the installer acts at some path. */
  lemma EarlierStaysFaithful(t0: Tree, s: Site, s': Site, p: Path, foreign: Path -> bool, e: Entry)
    requires Inv(t0, s, foreign) && Installs(s, s', p) && e in Firsts(s.log)
    ensures Faithful(t0, s'.tree, e)
  {
    InstallShape(s, s', p);
    InstalledKind(s, s', p);
    FirstsDistinct(s.log);
    assert Faithful(t0, s.tree, e) && e in s.log;
    hide Inv, WellFormed, Firsts, Snapshot;
    var d := Parent(e.path);
    assert d != p ==> SameAt(s.tree, s'.tree, d);
    if e.path == p {
      assert e.kind == s'.log[|s.log|].kind;
      assert Below(Parent(p), p);
    }
  }

  /** The first entry for a path is faithful to the start, and recorded after everything below it that existed. */
  lemma NewEntryIsFaithful(t0: Tree, s: Site, s': Site, p: Path, foreign: Path -> bool)
    requires Inv(t0, s, foreign) && Installs(s, s', p) && !foreign(p) && !Mentions(Firsts(s.log), p)
    ensures Faithful(t0, s'.tree, s'.log[|s.log|])
    ensures !s'.log[|s.log|].existed ==> p !in s.tree
  {
    InstallShape(s, s', p);
    InstalledKind(s, s', p);
    assert SameAt(t0, s.tree, p);
    assert Below(Parent(p), p);
    hide Inv, WellFormed, Firsts;
  }

  lemma NewEntryComesLast(t0: Tree, s: Site, foreign: Path -> bool, p: Path)
    requires Inv(t0, s, foreign) && p !in s.tree
    ensures forall e :: e in Firsts(s.log) ==> !Below(p, e.path)
  {
    forall e | e in Firsts(s.log) ensures !Below(p, e.path) {
      assert Faithful(t0, s.tree, e);
      if Below(p, e.path) {
        assert Parent(e.path)[..|p|] == p;
        if |p| < |e.path| - 1 {
          AncestorsExist(s.tree, Parent(e.path), |p|);
        }
      }
    }
  }

  lemma InOrderExtends(es: seq<Entry>, next: nat, e: Entry)
    requires InOrder(es, next) && !Mentions(es, e.path) && e.sequence == next
    requires !e.existed ==> forall x :: x in es ==> !Below(e.path, x.path)
    ensures InOrder(es + [e], next + 1)
  {
    forall i | 0 <= i < |es| ensures es[i].path != e.path {}
  }

  lemma MentionsExtends(es: seq<Entry>, e: Entry, q: Path)
    ensures Mentions(es + [e], q) <==> Mentions(es, q) || q == e.path
  {
    assert (es + [e])[|es|] == e;
    if Mentions(es, q) {
      var i :| 0 <= i < |es| && es[i].path == q;
      assert (es + [e])[i].path == q;
    }
  }

  lemma RestStaysUnchanged(t0: Tree, t: Tree, t': Tree, es: seq<Entry>, e: Entry, foreign: Path -> bool)
    requires RestUnchanged(t0, t, es, foreign)
    requires forall q :: q != e.path ==> SameAt(t, t', q)
    ensures RestUnchanged(t0, t', es + [e], foreign)
    ensures Mentions(es, e.path) ==> RestUnchanged(t0, t', es, foreign)
  {
    hide Mentions;
    forall q | !foreign(q) && !Mentions(es, q) && q != e.path ensures SameAt(t0, t', q) {
      assert SameAt(t0, t, q) && SameAt(t, t', q);
    }
    forall q { MentionsExtends(es, e, q); }
  }

  lemma InstallKeepsOrder(t0: Tree, s: Site, s': Site, p: Path, foreign: Path -> bool)
    requires Inv(t0, s, foreign) && Installs(s, s', p) && !foreign(p)
    ensures InOrder(Firsts(s'.log), |s'.log|)
    ensures AllFaithful(t0, s'.tree, Firsts(s'.log), foreign)
  {
    InstalledKind(s, s', p);
    FirstsExtend(s.log, s'.log);
    var es, e := Firsts(s.log), s'.log[|s.log|];
    assert e.sequence == |s.log| && InOrder(es, |s.log|);
    var mentioned := Mentions(es, p);
    var absent := p !in s.tree;
    EarlierStay(t0, s, s', p, foreign);
    hide Inv, Installs, WellFormed, Firsts, InOrder, AllFaithful, Mentions, Faithful;
    if mentioned {
      InOrderLater(es, |s.log|);
    } else {
      NewEntryIsFaithful(t0, s, s', p, foreign);
      if absent { NewEntryComesLast(t0, s, foreign, p); }
      InOrderExtends(es, |s.log|, e);
      FaithfulExtends(t0, s'.tree, es, e, foreign);
    }
  }

  lemma EarlierStay(t0: Tree, s: Site, s': Site, p: Path, foreign: Path -> bool)
    requires Inv(t0, s, foreign) && Installs(s, s', p)
    ensures AllFaithful(t0, s'.tree, Firsts(s.log), foreign)
  {
    assert AllFaithful(t0, s.tree, Firsts(s.log), foreign);
    hide Inv, Installs, WellFormed, Firsts, Faithful;
    forall x | x in Firsts(s.log) ensures !foreign(x.path) && Faithful(t0, s'.tree, x) {
      EarlierStaysFaithful(t0, s, s', p, foreign, x);
    }
  }

  lemma InOrderLater(es: seq<Entry>, next: nat)
    requires InOrder(es, next)
    ensures InOrder(es, next + 1)
  {
    hide Distinct, ParentsFirst, Ascending;
  }

  lemma FaithfulExtends(t0: Tree, t: Tree, es: seq<Entry>, e: Entry, foreign: Path -> bool)
    requires AllFaithful(t0, t, es, foreign) && !foreign(e.path) && Faithful(t0, t, e)
    ensures AllFaithful(t0, t, es + [e], foreign)
  {
    hide Faithful;
  }

  lemma InstallKeeps(t0: Tree, s: Site, s': Site, p: Path, foreign: Path -> bool)
    requires Inv(t0, s, foreign) && Installs(s, s', p) && !foreign(p)
    ensures Inv(t0, s', foreign)
  {
    InstallShape(s, s', p);
    InstalledKind(s, s', p);
    FirstsExtend(s.log, s'.log);
    InstallKeepsOrder(t0, s, s', p, foreign);
    hide Installs, WellFormed, AllFaithful, InOrder, Firsts, Mentions, RestUnchanged;
    RestStaysUnchanged(t0, s.tree, s'.tree, Firsts(s.log), s'.log[|s.log|], foreign);
  }

  lemma InitiallyKept(s: Site, foreign: Path -> bool)
    requires s.log == [] && WellFormed(s.tree)
    ensures Inv(s.tree, s, foreign)
  {
  }

  lemma {:induction false} RunKeeps(run: seq<Site>, foreign: Path -> bool, i: nat)
    requires IsRun(run, foreign) && i < |run|
    ensures Inv(run[0].tree, run[i], foreign)
  {
    hide Installs, Intrudes, Inv, WellFormed, Territory;
    if i == 0 {
      InitiallyKept(run[0], foreign);
    } else {
      RunKeeps(run, foreign, i - 1);
      assert StepAt(run, i - 1, foreign);
      if Intrudes(run[i - 1], run[i], foreign) {
        IntrusionKeeps(run[0].tree, run[i - 1], run[i], foreign);
      } else {
        var p :| !foreign(p) && Installs(run[i - 1], run[i], p);
        InstallKeeps(run[0].tree, run[i - 1], run[i], p, foreign);
      }
    }
  }

  // ---- Rolling back ----

  lemma UndoOrder(t0: Tree, earlier: Entry, later: Entry)
    requires WellFormed(t0) && earlier.path != later.path
    requires !later.existed ==> !Below(later.path, earlier.path)
    requires (earlier.existed <==> earlier.path in t0) && (later.existed <==> later.path in t0)
    ensures Ordered(later, earlier)
  {
    if Below(earlier.path, later.path) && later.existed {
      AncestorsExist(t0, later.path, |earlier.path|);
    }
  }

  /** Reversing the recording order gives a journal in undo order. */
  lemma InvMeansSane(t0: Tree, s: Site, foreign: Path -> bool)
    requires WellFormed(t0) && Inv(t0, s, foreign)
    ensures Sane(s.tree, Reversed(Firsts(s.log)))
  {
    var firsts := Firsts(s.log);
    assert AllFaithful(t0, s.tree, firsts, foreign) && InOrder(firsts, |s.log|);
    hide Inv, Firsts, WellFormed, Sane, AllFaithful, InOrder;
    ReversedIsSane(t0, s.tree, firsts, foreign, |s.log|);
  }

  lemma ReversedIsSane(t0: Tree, t: Tree, firsts: seq<Entry>, foreign: Path -> bool, next: nat)
    requires WellFormed(t0) && AllFaithful(t0, t, firsts, foreign) && InOrder(firsts, next)
    ensures Sane(t, Reversed(firsts))
  {
    var es := Reversed(firsts);
    hide WellFormed, Expected, Ordered, Ascending;
    forall i, j | 0 <= i < j < |es| ensures Ordered(es[i], es[j]) {
      var a, b := |es| - 1 - j, |es| - 1 - i;
      assert es[i] == firsts[b] && es[j] == firsts[a] && a < b;
      assert firsts[a] in firsts && firsts[b] in firsts;
      UndoOrder(t0, firsts[a], firsts[b]);
    }
    forall e | e in es ensures Expected(t, e) {
      assert e in firsts;
    }
  }

  lemma ReversedMentions(es: seq<Entry>, p: Path)
    ensures JournaledTo(Reversed(es), |es|, p) <==> Mentions(es, p)
  {
    if Mentions(es, p) {
      var i :| 0 <= i < |es| && es[i].path == p;
      assert Reversed(es)[|es| - 1 - i].path == p;
    }
  }

  /** Something other programs wrote lies below the path. */
  ghost predicate HoldsTerritory(t: Tree, p: Path, foreign: Path -> bool) {
    exists q :: q in t && Below(p, q) && foreign(q)
  }

  lemma CreatedIsNew(t0: Tree, s: Site, foreign: Path -> bool, q: Path)
    requires Inv(t0, s, foreign)
    ensures Created(Reversed(Firsts(s.log)), q) ==> q !in t0 && !foreign(q)
    ensures q in s.tree && q !in t0 && !foreign(q) ==> Created(Reversed(Firsts(s.log)), q)
  {
    var firsts := Firsts(s.log);
    var es := Reversed(firsts);
    hide Firsts, WellFormed, InOrder, Expected;
    ReversedMentions(firsts, q);
    forall i | 0 <= i < |es| && es[i].path == q ensures !foreign(q) && (es[i].existed <==> q in t0) {
      assert es[i] == firsts[|es| - 1 - i] && es[i] in firsts;
    }
  }

  /** Below a path the installer created, what it did not create is foreign. */
  lemma ForeignBelowCreated(t0: Tree, s: Site, foreign: Path -> bool, p: Path)
    requires WellFormed(t0) && Inv(t0, s, foreign) && p !in t0
    ensures HoldsForeign(s.tree, Reversed(Firsts(s.log)), p) <==> HoldsTerritory(s.tree, p, foreign)
  {
    var es := Reversed(Firsts(s.log));
    hide Inv, WellFormed, Created, Firsts;
    forall q | q in s.tree && Below(p, q) ensures Created(es, q) <==> !foreign(q) {
      CreatedIsNew(t0, s, foreign, q);
      assert q in t0 ==> p in t0 by {
        if q in t0 { AncestorsExist(t0, q, |p|); }
      }
    }
  }

  /** What rollback must leave at a path: foreign content and the directories holding it, otherwise the start. */
  ghost predicate RolledBackAt(t0: Tree, t: Tree, r: Tree, p: Path, foreign: Path -> bool) {
    if foreign(p) || (p !in t0 && HoldsTerritory(t, p, foreign)) then SameAt(t, r, p) else SameAt(t0, r, p)
  }

  lemma SettledIsRolledBack(t0: Tree, t: Tree, r: Tree, es: seq<Entry>, e: Entry, foreign: Path -> bool)
    requires !foreign(e.path) && Faithful(t0, t, e) && Settled(t, r, es, e)
    requires e.path !in t0 ==> (HoldsForeign(t, es, e.path) <==> HoldsTerritory(t, e.path, foreign))
    requires HoldsForeign(t, es, e.path) ==> IsDirectory(t, e.path)
    ensures RolledBackAt(t0, t, r, e.path, foreign)
  {
    hide HoldsForeign, HoldsTerritory;
  }

  lemma UnjournaledIsRolledBack(t0: Tree, t: Tree, r: Tree, p: Path, foreign: Path -> bool)
    requires SameAt(t, r, p) && (foreign(p) || SameAt(t0, t, p))
    ensures RolledBackAt(t0, t, r, p, foreign)
  {
    hide HoldsTerritory;
  }

  lemma EntryFaithful(t0: Tree, s: Site, foreign: Path -> bool, i: nat)
    requires Inv(t0, s, foreign) && i < |Firsts(s.log)|
    ensures var e := Reversed(Firsts(s.log))[i]; !foreign(e.path) && Faithful(t0, s.tree, e)
  {
    hide Firsts, WellFormed, InOrder, RestUnchanged, Faithful;
    assert Reversed(Firsts(s.log))[i] in Firsts(s.log);
  }

  lemma JournaledIsRolledBack(t0: Tree, s: Site, r: Tree, foreign: Path -> bool, i: nat)
    requires WellFormed(t0) && WellFormed(s.tree) && Inv(t0, s, foreign)
    requires i < |Firsts(s.log)|
    requires var es := Reversed(Firsts(s.log)); Settled(s.tree, r, es, es[i])
    ensures RolledBackAt(t0, s.tree, r, Reversed(Firsts(s.log))[i].path, foreign)
  {
    hide Inv, Firsts, WellFormed, HoldsForeign, HoldsTerritory, Faithful, Settled, RolledBackAt;
    var es := Reversed(Firsts(s.log));
    var p := es[i].path;
    if HoldsForeign(s.tree, es, p) { HolderExists(s.tree, es, p); }
    if p !in t0 { ForeignBelowCreated(t0, s, foreign, p); }
    EntryFaithful(t0, s, foreign, i);
    SettledIsRolledBack(t0, s.tree, r, es, es[i], foreign);
  }

  lemma RollbackReachedAt(t0: Tree, s: Site, r: Tree, foreign: Path -> bool, p: Path)
    requires WellFormed(t0) && Inv(t0, s, foreign)
    requires var es := Reversed(Firsts(s.log)); UndoneTo(s.tree, r, es, |es|)
    ensures RolledBackAt(t0, s.tree, r, p, foreign)
  {
    var firsts := Firsts(s.log);
    var es := Reversed(firsts);
    ReversedMentions(firsts, p);
    if JournaledTo(es, |es|, p) {
      var i :| 0 <= i < |es| && es[i].path == p;
      assert WellFormed(s.tree) && Settled(s.tree, r, es, es[i]);
      hide Inv, WellFormed, UndoneTo, RolledBackAt, Firsts, Mentions, Settled;
      JournaledIsRolledBack(t0, s, r, foreign, i);
    } else {
      hide WellFormed, InOrder, AllFaithful, Settled, RolledBackAt, Firsts, Mentions;
      UnjournaledIsRolledBack(t0, s.tree, r, p, foreign);
    }
  }

  /** A directory the installer created that holds foreign content. */
  ghost predicate Survives(t0: Tree, t: Tree, p: Path, foreign: Path -> bool) {
    !foreign(p) && p !in t0 && HoldsTerritory(t, p, foreign)
  }

  lemma {:induction false} ConflictsMean(t: Tree, es: seq<Entry>, k: nat, f: Failure)
    requires k <= |es|
    ensures f in Conflicts(t, es, k) <==> exists i :: 0 <= i < k && f in ConflictAt(t, es, es[i])
  {
    hide ConflictAt;
    if k > 0 {
      ConflictsMean(t, es, k - 1, f);
    }
  }

  /** A conflict is a path the installer created as a directory, holding what it did not create. */
  lemma ConflictsAreHolders(t: Tree, es: seq<Entry>, f: Failure)
    requires WellFormed(t) && forall e :: e in es ==> Expected(t, e)
    ensures f in Conflicts(t, es, |es|) <==>
      f.problem == DirectoryNotEmpty && Created(es, f.path) && HoldsForeign(t, es, f.path)
  {
    ConflictsMean(t, es, |es|, f);
    forall e | e in es && !e.existed && e.path == f.path && HoldsForeign(t, es, f.path) ensures e.kind.DirectoryKind? {
      HolderExists(t, es, f.path);
    }
    hide HoldsForeign, WellFormed, Conflicts, Expected;
    if f.problem == DirectoryNotEmpty && Created(es, f.path) && HoldsForeign(t, es, f.path) {
      var i :| 0 <= i < |es| && es[i].path == f.path && !es[i].existed;
      assert es[i] in es;
      assert f in ConflictAt(t, es, es[i]);
    }
  }

  /** The conflicts are exactly the surviving directories. */
  lemma ConflictsAreSurvivors(t0: Tree, s: Site, foreign: Path -> bool, f: Failure)
    requires WellFormed(t0) && Inv(t0, s, foreign)
    ensures var es := Reversed(Firsts(s.log));
      f in Conflicts(s.tree, es, |es|) <==>
        f.problem == DirectoryNotEmpty && Survives(t0, s.tree, f.path, foreign)
  {
    var es := Reversed(Firsts(s.log));
    InvMeansSane(t0, s, foreign);
    ConflictsAreHolders(s.tree, es, f);
    if f.path !in t0 { ForeignBelowCreated(t0, s, foreign, f.path); }
    if HoldsForeign(s.tree, es, f.path) { HolderExists(s.tree, es, f.path); }
    CreatedIsNew(t0, s, foreign, f.path);
    hide Inv, Firsts, WellFormed, HoldsForeign, HoldsTerritory, Created, Conflicts, Sane;
  }

  lemma UndoOrderIsReversed(t0: Tree, s: Site, foreign: Path -> bool)
    requires Inv(t0, s, foreign)
    ensures Descending(Descending(Firsts(s.log))) == Reversed(Firsts(s.log))
  {
    hide Firsts, WellFormed, AllFaithful, Descending;
    DescendingReverses(Firsts(s.log));
    DescendingIsStable(Firsts(s.log));
  }

  /** What rolling back with the deduplicated journal must achieve. */
  ghost predicate Restores(t0: Tree, t: Tree, result: Undoing, foreign: Path -> bool) {
    && (forall p :: RolledBackAt(t0, t, result.tree, p, foreign))
    && (forall f :: f in result.errors <==> f.problem == DirectoryNotEmpty && Survives(t0, t, f.path, foreign))
  }

  lemma InvRestores(t0: Tree, s: Site, foreign: Path -> bool, w: World)
    requires WellFormed(t0) && Inv(t0, s, foreign) && Quiet(s.tree, Reversed(Firsts(s.log)), w)
    ensures Restores(t0, s.tree, UndoAll(s.tree, Reversed(Firsts(s.log)), w, |Firsts(s.log)|), foreign)
  {
    var es := Reversed(Firsts(s.log));
    InvMeansSane(t0, s, foreign);
    assert WellFormed(s.tree);
    hide Inv, Quiet, Firsts, Survives, RolledBackAt, Sane, WellFormed, UndoneTo, UndoAll, Conflicts, Reports, Reversed;
    RollbackIsExact(s.tree, es, w, |es|);
    var result := UndoAll(s.tree, es, w, |es|);
    TreeIsRestored(t0, s, result.tree, foreign);
    ErrorsAreSurvivors(t0, s, foreign);
  }

  lemma TreeIsRestored(t0: Tree, s: Site, r: Tree, foreign: Path -> bool)
    requires WellFormed(t0) && Inv(t0, s, foreign)
    requires var es := Reversed(Firsts(s.log)); UndoneTo(s.tree, r, es, |es|)
    ensures forall p :: RolledBackAt(t0, s.tree, r, p, foreign)
  {
    hide *;
    forall p ensures RolledBackAt(t0, s.tree, r, p, foreign) {
      RollbackReachedAt(t0, s, r, foreign, p);
    }
  }

  lemma ErrorsAreSurvivors(t0: Tree, s: Site, foreign: Path -> bool)
    requires WellFormed(t0) && Inv(t0, s, foreign)
    ensures var es := Reversed(Firsts(s.log));
      forall f: Failure :: f in Conflicts(s.tree, es, |es|) <==>
        f.problem == DirectoryNotEmpty && Survives(t0, s.tree, f.path, foreign)
  {
    hide *;
    forall f: Failure ensures f in Conflicts(s.tree, Reversed(Firsts(s.log)), |Reversed(Firsts(s.log))|) <==>
      f.problem == DirectoryNotEmpty && Survives(t0, s.tree, f.path, foreign)
    {
      ConflictsAreSurvivors(t0, s, foreign, f);
    }
  }

  /**
   * Rollback after any installation run, whatever other programs did on their own paths
   * meanwhile: every path is as it was before the installation, except foreign paths, which
   * stay as they are, and new directories holding foreign content, which stay and are the
   * errors reported.
   */
  lemma RollbackRestoresTheStart(run: seq<Site>, foreign: Path -> bool, w: World)
    requires IsRun(run, foreign)
    requires var s := run[|run| - 1]; Quiet(s.tree, Descending(Descending(Firsts(s.log))), w)
    ensures var s := run[|run| - 1]; var es := Descending(Descending(Firsts(s.log)));
      Restores(run[0].tree, s.tree, UndoAll(s.tree, es, w, |es|), foreign)
  {
    var s := run[|run| - 1];
    RunKeeps(run, foreign, |run| - 1);
    UndoOrderIsReversed(run[0].tree, s, foreign);
    InvRestores(run[0].tree, s, foreign, w);
  }

  /** Without foreign changes the whole tree is restored and no error is reported. */
  lemma RollbackAlone(run: seq<Site>, nobody: Path -> bool, w: World)
    requires IsRun(run, nobody) && forall p :: !nobody(p)
    requires var s := run[|run| - 1]; Quiet(s.tree, Descending(Descending(Firsts(s.log))), w)
    ensures var s := run[|run| - 1]; var es := Descending(Descending(Firsts(s.log)));
      UndoAll(s.tree, es, w, |es|).tree == run[0].tree && UndoAll(s.tree, es, w, |es|).errors == []
  {
    var s := run[|run| - 1];
    var es := Descending(Descending(Firsts(s.log)));
    RollbackRestoresTheStart(run, nobody, w);
    RestoresAll(run[0].tree, s.tree, UndoAll(s.tree, es, w, |es|), nobody);
  }

  lemma RestoresAll(t0: Tree, t: Tree, result: Undoing, nobody: Path -> bool)
    requires Restores(t0, t, result, nobody) && forall p :: !nobody(p)
    ensures result.tree == t0 && result.errors == []
  {
    forall p ensures SameAt(t0, result.tree, p) {
      assert RolledBackAt(t0, t, result.tree, p, nobody);
      assert !HoldsTerritory(t, p, nobody);
    }
    forall p ensures p in result.tree <==> p in t0 { assert SameAt(t0, result.tree, p); }
    forall p | p in t0 ensures result.tree[p] == t0[p] { assert SameAt(t0, result.tree, p); }
    NonemptyHasMember(result.errors);
  }

  lemma NonemptyHasMember(errors: seq<Failure>)
    ensures errors != [] ==> exists f :: f in errors
  {
    if errors != [] { assert errors[0] in errors; }
  }
}
