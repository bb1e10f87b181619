/**
 * Atomic and durable file replacement on a file system that may crash
 * (src/adapters/persistence.ts).
 *
 * A crash keeps, for every name, any directory entry the name has had since its
 * directory was last synced, and the content of an inode only if it was synced;
 * any other content may have turned into anything.
 */
module DurableWrite {
  import opened Results

  datatype Disk<C> = Disk(
    content: map<nat, C>,
    synced: set<nat>,
    entry: string -> Option<nat>,
    candidates: string -> set<Option<nat>>)

  /** What a reader sees under a name. */
  function View<C>(d: Disk<C>, name: string): Option<C> {
    match d.entry(name)
    case Some(i) => if i in d.content then Some(d.content[i]) else None
    case None => None
  }

  /** A name's entry may survive a crash, and every surviving entry names an inode. */
  ghost predicate Sane<C>(d: Disk<C>) {
    && (forall name :: d.entry(name) in d.candidates(name))
    && (forall name, i :: Some(i) in d.candidates(name) ==> i in d.content)
  }

  /** What a reader may see under a name after a crash. */
  ghost predicate MaySurvive<C>(d: Disk<C>, name: string, seen: Option<C>) {
    || (seen.None? && None in d.candidates(name))
    || (seen.Some? && exists i :: Some(i) in d.candidates(name) && i in d.content
                                  && (i in d.synced ==> seen.value == d.content[i]))
  }

  /** A crash cannot change what is seen under the name. */
  ghost predicate Settled<C(!new)>(d: Disk<C>, name: string) {
    forall seen :: MaySurvive(d, name, seen) <==> seen == View(d, name)
  }

  function Create<C>(d: Disk<C>, name: string, inode: nat, blank: C): Disk<C> {
    Disk(d.content[inode := blank], d.synced - {inode},
         n => if n == name then Some(inode) else d.entry(n),
         n => if n == name then d.candidates(n) + {Some(inode)} else d.candidates(n))
  }

  function Fill<C>(d: Disk<C>, inode: nat, c: C): Disk<C> {
    d.(content := d.content[inode := c], synced := d.synced - {inode})
  }

  function SyncFile<C>(d: Disk<C>, inode: nat): Disk<C> {
    d.(synced := d.synced + {inode})
  }

  function Rename<C>(d: Disk<C>, from: string, to: string): Disk<C> {
    d.(entry := n => if n == to then d.entry(from) else if n == from then None else d.entry(n),
       candidates := n => if n == to then d.candidates(n) + {d.entry(from)}
                          else if n == from then d.candidates(n) + {None} else d.candidates(n))
  }

  function SyncDirectory<C>(d: Disk<C>): Disk<C> {
    d.(candidates := n => {d.entry(n)})
  }

  function Unlink<C>(d: Disk<C>, name: string): Disk<C> {
    d.(entry := n => if n == name then None else d.entry(n),
       candidates := n => if n == name then d.candidates(n) + {None} else d.candidates(n))
  }

  // ---- What a replacement does to a name ----

  /** Neither readers nor crashes see the name differently. */
  ghost predicate Kept<C(!new)>(before: Disk<C>, d: Disk<C>, name: string) {
    && View(d, name) == View(before, name)
    && (forall seen :: MaySurvive(d, name, seen) <==> MaySurvive(before, name, seen))
  }

  /** Readers see the new content; a crash leaves it, or anything it could have left before. */
  ghost predicate Replaced<C(!new)>(before: Disk<C>, d: Disk<C>, name: string, content: C) {
    && View(d, name) == Some(content)
    && (forall seen :: MaySurvive(d, name, seen) <==> seen == Some(content) || MaySurvive(before, name, seen))
  }

  /** Readers see what they saw, and a crash cannot change it any more. */
  ghost predicate SettledAs<C(!new)>(d: Disk<C>, name: string, seen: Option<C>) {
    View(d, name) == seen && Settled(d, name)
  }

  /** What readers see under the name has reached the disk. */
  ghost predicate OnDisk<C(!new)>(d: Disk<C>, name: string) {
    d.entry(name).Some? ==> d.entry(name).value in d.synced
  }

  /** Keeping a name keeps whatever was done to it before. */
  lemma KeptAfter<C(!new)>(before: Disk<C>, d: Disk<C>, after: Disk<C>, name: string, content: C)
    requires Kept(d, after, name)
    ensures Kept(before, d, name) ==> Kept(before, after, name)
    ensures Replaced(before, d, name, content) ==> Replaced(before, after, name, content)
  {
  }

  lemma KeptAtFirst<C(!new)>(d: Disk<C>)
    ensures forall name :: Kept(d, d, name)
  {
  }

  /** The temp file is new under a fresh inode; every other name is as before. */
  ghost predicate Prepared<C(!new)>(before: Disk<C>, d: Disk<C>, temp: string, inode: nat) {
    && Sane(before) && inode !in before.content
    && d.content.Keys == before.content.Keys + {inode}
    && (forall i :: i in before.content ==> d.content[i] == before.content[i])
    && (forall i :: i != inode ==> (i in d.synced <==> i in before.synced))
    && d.entry(temp) == Some(inode) && d.candidates(temp) == {None, Some(inode)}
    && (forall name :: name != temp ==>
          d.entry(name) == before.entry(name) && d.candidates(name) == before.candidates(name))
  }

  /** Creating, filling and syncing the temp file. */
  lemma TempIsPrepared<C(!new)>(d: Disk<C>, temp: string, inode: nat, blank: C, content: C)
    requires Sane(d) && d.entry(temp).None? && d.candidates(temp) == {None} && inode !in d.content
    ensures var created := Create(d, temp, inode, blank);
      var filled := Fill(created, inode, content);
      var ready := SyncFile(filled, inode);
      && Prepared(d, created, temp, inode) && Prepared(d, filled, temp, inode) && Prepared(d, ready, temp, inode)
      && inode in ready.synced && ready.content[inode] == content
  {
  }

  lemma PreparedKeeps<C(!new)>(before: Disk<C>, d: Disk<C>, temp: string, inode: nat)
    requires Prepared(before, d, temp, inode)
    ensures Sane(d)
    ensures forall name :: name != temp ==> Kept(before, d, name)
  {
    forall name | name != temp ensures Kept(before, d, name) {
      assert before.entry(name) in before.candidates(name);
      forall seen | MaySurvive(before, name, seen) ensures MaySurvive(d, name, seen) {
        assert d.candidates(name) == before.candidates(name);
      }
    }
  }

  /** A file whose content is synced may be renamed over the target: a crash leaves the old content or the new. */
  lemma RenamedIsReplaced<C(!new)>(before: Disk<C>, d: Disk<C>, target: string, temp: string, inode: nat, content: C)
    requires Prepared(before, d, temp, inode) && temp != target
    requires inode in d.synced && d.content[inode] == content
    ensures var r := Rename(d, temp, target);
      && Sane(r) && Replaced(before, r, target, content) && r.entry(target) == Some(inode)
      && (forall name :: name != target && name != temp ==> Kept(before, r, name))
  {
    var r := Rename(d, temp, target);
    assert r.candidates(target) == before.candidates(target) + {Some(inode)};
    forall seen ensures MaySurvive(r, target, seen) <==> seen == Some(content) || MaySurvive(before, target, seen) {
      if seen == Some(content) {
        assert Some(inode) in r.candidates(target);
      } else if MaySurvive(before, target, seen) && seen.Some? {
        var i :| Some(i) in before.candidates(target) && i in before.content
                 && (i in before.synced ==> seen.value == before.content[i]);
        assert Some(i) in r.candidates(target);
      }
    }
    forall name | name != target && name != temp ensures Kept(before, r, name) {
      PreparedKeeps(before, d, temp, inode);
      assert Kept(before, d, name);
      assert r.candidates(name) == d.candidates(name) && r.entry(name) == d.entry(name);
      assert forall seen :: MaySurvive(r, name, seen) <==> MaySurvive(d, name, seen);
    }
  }

  lemma UnlinkKeeps<C(!new)>(d: Disk<C>, temp: string)
    requires Sane(d)
    ensures Sane(Unlink(d, temp))
    ensures forall name :: name != temp ==> Kept(d, Unlink(d, temp), name)
  {
    var u := Unlink(d, temp);
    forall name | name != temp ensures Kept(d, u, name) {
      assert u.candidates(name) == d.candidates(name);
      assert forall seen :: MaySurvive(u, name, seen) <==> MaySurvive(d, name, seen);
    }
  }

  /** A name that can lead to one synced file only, or to none, is settled. */
  lemma OneCandidateSettles<C(!new)>(d: Disk<C>, name: string)
    requires Sane(d) && d.candidates(name) == {d.entry(name)} && OnDisk(d, name)
    ensures SettledAs(d, name, View(d, name))
  {
    var entry := d.entry(name);
    assert entry in d.candidates(name);
    forall seen ensures MaySurvive(d, name, seen) <==> seen == View(d, name) {
      if seen == View(d, name) && seen.Some? {
        assert Some(entry.value) in d.candidates(name);
      }
    }
  }

  /** Syncing the directory settles every name whose file is synced. */
  lemma SyncedIsSettled<C(!new)>(d: Disk<C>, name: string)
    requires Sane(d) && OnDisk(d, name)
    ensures Sane(SyncDirectory(d)) && SettledAs(SyncDirectory(d), name, View(d, name))
  {
    SyncKeepsSane(d);
    OneCandidateSettles(SyncDirectory(d), name);
  }

  lemma SyncKeepsSane<C(!new)>(d: Disk<C>)
    requires Sane(d)
    ensures Sane(SyncDirectory(d))
  {
    forall name, i | Some(i) in SyncDirectory(d).candidates(name) ensures i in d.content {
      assert Some(i) in d.candidates(name);
    }
  }

  /** A directory sync after the rename settles the target, and every other file that was on disk. */
  lemma SyncSettlesAll<C(!new)>(before: Disk<C>, ready: Disk<C>, target: string, temp: string, inode: nat, content: C)
    requires Prepared(before, ready, temp, inode) && temp != target
    requires inode in ready.synced && ready.content[inode] == content
    ensures var s := SyncDirectory(Rename(ready, temp, target));
      && Sane(s) && SettledAs(s, target, Some(content))
      && forall name :: name != target && name != temp && OnDisk(before, name) ==> SettledAs(s, name, View(before, name))
  {
    var r := Rename(ready, temp, target);
    RenamedIsReplaced(before, ready, target, temp, inode, content);
    assert View(r, target) == Some(content) by { assert Replaced(before, r, target, content); }
    hide Prepared, Replaced, SettledAs, View, Sane;
    SyncedIsSettled(r, target);
    forall name | name != target && name != temp && OnDisk(before, name)
      ensures SettledAs(SyncDirectory(r), name, View(before, name))
    {
      StillOnDisk(before, ready, target, temp, inode, name);
      assert Kept(before, r, name);
      SyncedIsSettled(r, name);
    }
  }

  lemma StillOnDisk<C(!new)>(before: Disk<C>, ready: Disk<C>, target: string, temp: string, inode: nat, name: string)
    requires Prepared(before, ready, temp, inode)
    requires name != target && name != temp && OnDisk(before, name)
    ensures OnDisk(Rename(ready, temp, target), name)
  {
    assert before.entry(name) in before.candidates(name);
    assert ready.entry(name) == before.entry(name);
  }

  // ---- Power loss ----

  /** A name that leads to a file which was not synced may lead to anything after a crash. */
  lemma UnsyncedMayBeAnything<C(!new)>(d: Disk<C>, name: string, content: C)
    requires Sane(d)
    ensures OnDisk(d, name) || MaySurvive(d, name, Some(content))
  {
    if !OnDisk(d, name) {
      assert d.entry(name) in d.candidates(name);
      assert Some(d.entry(name).value) in d.candidates(name);
    }
  }

  /** After a power loss each name leads where it may, synced files are intact, and all that is left is on disk. */
  ghost predicate CrashesTo<C(!new)>(d: Disk<C>, after: Disk<C>) {
    && after.content.Keys == d.content.Keys && after.synced == after.content.Keys
    && (forall i :: i in d.content && i in d.synced ==> after.content[i] == d.content[i])
    && (forall name :: after.entry(name) in d.candidates(name) && after.candidates(name) == {after.entry(name)})
  }

  lemma CrashSettles<C(!new)>(d: Disk<C>, after: Disk<C>, name: string)
    requires Sane(d) && CrashesTo(d, after)
    ensures Sane(after) && SettledAs(after, name, View(after, name)) && MaySurvive(d, name, View(after, name))
  {
    forall n, i | Some(i) in after.candidates(n) ensures i in after.content {
      assert Some(i) in d.candidates(n);
    }
    OneCandidateSettles(after, name);
    if after.entry(name).Some? {
      assert Some(after.entry(name).value) in d.candidates(name);
    }
  }

  /** What may survive is exactly what some power loss leaves. */
  lemma SurvivalIff<C(!new)>(d: Disk<C>, name: string, seen: Option<C>)
    requires Sane(d)
    ensures MaySurvive(d, name, seen) <==> exists after :: CrashesTo(d, after) && View(after, name) == seen
  {
    if MaySurvive(d, name, seen) {
      var kept: Option<nat> := None;
      if seen.Some? {
        var i :| Some(i) in d.candidates(name) && i in d.content && (i in d.synced ==> seen.value == d.content[i]);
        kept := Some(i);
      }
      var content := if seen.None? then d.content else d.content[kept.value := seen.value];
      var entry := (n: string) => if n == name then kept else d.entry(n);
      var after := Disk(content, content.Keys, entry, (n: string) => {entry(n)});
      assert CrashesTo(d, after) && View(after, name) == seen;
    }
    forall after | CrashesTo(d, after) && View(after, name) == seen ensures MaySurvive(d, name, seen) {
      CrashSettles(d, after, name);
    }
  }

  datatype RenameAttempt = Renamed | Transient | Fault
  datatype DirectorySync = Synced | Unsupported | Failed

  /** How the operating system answers one write; `steps` operations happen before a crash. */
  datatype Answers = Answers(
    steps: nat,
    createFails: bool,
    writeFails: bool,
    syncFails: bool,
    renames: seq<RenameAttempt>,
    directory: DirectorySync,
    unlinkFails: bool)

  datatype WriteOutcome = Written | WriteFailed | Crashed

  /** One attempt within the retry bound renames, and only transient failures come before it. */
  ghost predicate RenameSucceeds(attempts: nat, outcomes: seq<RenameAttempt>) {
    exists i :: 0 <= i < attempts && i < |outcomes| && outcomes[i] == Renamed
                && forall j :: 0 <= j < i ==> outcomes[j] == Transient
  }

  /** The k-th operation of a replacement fails: create, write, sync, rename, sync of the directory. */
  ghost predicate FailsAt(answers: Answers, k: nat) {
    || (k == 1 && answers.createFails)
    || (k == 2 && answers.writeFails)
    || (k == 3 && answers.syncFails)
    || (k == 4 && !RenameSucceeds(3, answers.renames))
    || (k == 5 && answers.directory.Failed?)
  }

  /** The first n operations are made, and none fails. */
  ghost predicate Done(answers: Answers, n: nat) {
    n <= answers.steps && forall k :: 1 <= k <= n ==> !FailsAt(answers, k)
  }

  ghost predicate DirectorySynced(answers: Answers) {
    Done(answers, 5) && answers.directory.Synced?
  }

  /** A replacement: the answers determine the outcome, and what readers and crashes see under every name. */
  ghost predicate IsReplacement<C(!new)>(
    before: Disk<C>, after: Disk<C>, target: string, temp: string, content: C, answers: Answers, outcome: WriteOutcome)
  {
    && (outcome == Written <==> Done(answers, 5))
    && (outcome == Crashed <==> answers.steps < 5 && Done(answers, answers.steps))
    && (!Done(answers, 4) ==> Kept(before, after, target))
    && (Done(answers, 4) && !DirectorySynced(answers) ==> Replaced(before, after, target, content))
    && (DirectorySynced(answers) ==> SettledAs(after, target, Some(content)))
    && forall name :: name != target && name != temp ==> OtherKept(before, after, name, answers)
  }

  ghost predicate OtherKept<C(!new)>(before: Disk<C>, after: Disk<C>, name: string, answers: Answers) {
    if DirectorySynced(answers)
    then OnDisk(before, name) ==> SettledAs(after, name, View(before, name))
    else Kept(before, after, name)
  }

  /** One of the operations up to the rename is made and fails. */
  ghost predicate FailsEarly(answers: Answers) {
    || (answers.steps >= 1 && answers.createFails)
    || (answers.steps >= 2 && answers.writeFails)
    || (answers.steps >= 3 && answers.syncFails)
    || (answers.steps >= 4 && !RenameSucceeds(3, answers.renames))
  }

  lemma FailsEarlyIff(answers: Answers)
    ensures FailsEarly(answers) <==> exists k :: 1 <= k <= 4 && k <= answers.steps && FailsAt(answers, k)
  {
    assert FailsAt(answers, 1) <==> answers.createFails;
    assert FailsAt(answers, 2) <==> answers.writeFails;
    assert FailsAt(answers, 3) <==> answers.syncFails;
    assert FailsAt(answers, 4) <==> !RenameSucceeds(3, answers.renames);
  }

  /** Up to the rename nothing changes but the temp file. */
  lemma Before<C(!new)>(before: Disk<C>, d: Disk<C>, target: string, temp: string, content: C, answers: Answers)
    requires target != temp && forall name :: name != temp ==> Kept(before, d, name)
    ensures answers.steps < 4 && !FailsEarly(answers) ==>
      IsReplacement(before, d, target, temp, content, answers, Crashed)
    ensures FailsEarly(answers) ==>
      IsReplacement(before, d, target, temp, content, answers, WriteFailed)
  {
    hide Kept, FailsAt, FailsEarly;
    FailsEarlyIff(answers);
  }

  /** From the rename on the target is replaced. */
  lemma After<C(!new)>(before: Disk<C>, d: Disk<C>, target: string, temp: string, content: C, answers: Answers)
    requires Replaced(before, d, target, content)
    requires forall name :: name != target && name != temp ==> Kept(before, d, name)
    requires answers.steps >= 4 && !FailsEarly(answers)
    ensures answers.steps == 4 ==> IsReplacement(before, d, target, temp, content, answers, Crashed)
    ensures answers.steps > 4 && answers.directory.Unsupported? ==>
      IsReplacement(before, d, target, temp, content, answers, Written)
    ensures answers.steps > 4 && answers.directory.Failed? ==>
      IsReplacement(before, d, target, temp, content, answers, WriteFailed)
  {
    hide Kept, Replaced, FailsEarly;
    FailsEarlyIff(answers);
    assert FailsAt(answers, 5) <==> answers.directory.Failed?;
  }

  /** The sync of the directory settles it. */
  lemma AtLast<C(!new)>(before: Disk<C>, d: Disk<C>, target: string, temp: string, content: C, answers: Answers)
    requires SettledAs(d, target, Some(content))
    requires forall name :: name != target && name != temp && OnDisk(before, name) ==> SettledAs(d, name, View(before, name))
    requires answers.steps > 4 && !FailsEarly(answers) && answers.directory.Synced?
    ensures IsReplacement(before, d, target, temp, content, answers, Written)
  {
    hide SettledAs, OnDisk, FailsEarly;
    FailsEarlyIff(answers);
  }

  /** A failure is reported over visible new content exactly when the sync of the directory is the one that failed. */
  lemma FailedButVisibleIff<C(!new)>(
    before: Disk<C>, after: Disk<C>, target: string, temp: string, content: C, answers: Answers, outcome: WriteOutcome)
    requires IsReplacement(before, after, target, temp, content, answers, outcome)
    requires View(before, target) != Some(content)
    ensures outcome == WriteFailed && View(after, target) == Some(content) <==>
      answers.steps >= 5 && Done(answers, 4) && answers.directory.Failed?
  {
    assert FailsAt(answers, 5) <==> answers.directory.Failed?;
    if outcome == WriteFailed && answers.steps >= 5 && Done(answers, 4) {
      assert exists k :: 1 <= k <= 5 && FailsAt(answers, k);
    }
  }

  const DIRECTORY_FAILS := Answers(5, false, false, false, [Renamed, Renamed, Renamed], Failed, false)

  /** Such a failure: the caller is told so, readers see the new content, and a crash may bring the old back. */
  lemma FailedButVisible<C(!new)>(
    before: Disk<C>, after: Disk<C>, target: string, temp: string, content: C, outcome: WriteOutcome)
    requires Sane(before) && IsReplacement(before, after, target, temp, content, DIRECTORY_FAILS, outcome)
    ensures outcome == WriteFailed && View(after, target) == Some(content)
    ensures MaySurvive(after, target, View(before, target)) && MaySurvive(after, target, Some(content))
  {
    assert DIRECTORY_FAILS.renames[0] == Renamed;
    assert FailsAt(DIRECTORY_FAILS, 5) && Done(DIRECTORY_FAILS, 4);
    assert before.entry(target) in before.candidates(target);
    if before.entry(target).Some? {
      assert Some(before.entry(target).value) in before.candidates(target);
    }
  }

  class FileSystem<C(!new)> {
    var disk: Disk<C>

    constructor (initial: Disk<C>)
      ensures disk == initial
    {
      disk := initial;
    }

    /**
     * renameWithRetry: transient failures are retried, any other failure and the last one are thrown.
     * With no attempts it reports success without renaming; every caller passes 3.
     */
    method RenameWithRetry(from: string, to: string, attempts: nat, outcomes: seq<RenameAttempt>)
      returns (ok: bool)
      requires |outcomes| >= attempts
      modifies this
      ensures ok <==> attempts == 0 || RenameSucceeds(attempts, outcomes)
      ensures disk == if attempts > 0 && ok then Rename(old(disk), from, to) else old(disk)
    {
      for i := 0 to attempts
        invariant disk == old(disk)
        invariant i == 0 || i < attempts
        invariant forall j :: 0 <= j < i ==> outcomes[j] == Transient
      {
        match outcomes[i] {
          case Renamed =>
            disk := Rename(disk, from, to);
            return true;
          case Transient =>
            if i == attempts - 1 {
              return false;
            }
          case Fault =>
            return false;
        }
      }
      ok := true;
    }

    /**
     * durableAtomicWrite: temp file, fsync, rename, fsync of the directory, and cleanup on failure.
     * The answers determine the outcome and what readers and crashes see under every name.
     */
    method DurableAtomicWrite(
      target: string, temp: string, inode: nat, blank: C, content: C, answers: Answers)
      returns (outcome: WriteOutcome)
      requires Sane(disk) && temp != target
      requires disk.entry(temp).None? && disk.candidates(temp) == {None} && inode !in disk.content
      requires |answers.renames| >= 3
      modifies this
      ensures Sane(disk)
      ensures IsReplacement(old(disk), disk, target, temp, content, answers, outcome)
      // No temp file is left, unless the process died or the clean-up failed, too.
      ensures outcome == Written || (outcome == WriteFailed && !answers.unlinkFails) ==> disk.entry(temp).None?
    {
      ghost var before := disk;
      TempIsPrepared(before, temp, inode, blank, content);
      hide Prepared, Kept, Replaced, SettledAs, OnDisk, Settled, Sane, IsReplacement, RenameSucceeds;
      KeptAtFirst(before);
      Before(before, before, target, temp, content, answers);
      if answers.steps == 0 { return Crashed; }
      if answers.createFails { return WriteFailed; }
      disk := Create(disk, temp, inode, blank);
      PreparedKeeps(before, disk, temp, inode);
      Before(before, disk, target, temp, content, answers);
      if answers.steps == 1 { return Crashed; }
      if answers.writeFails {
        CleanUp(before, temp, content, answers);
        Before(before, disk, target, temp, content, answers);
        return WriteFailed;
      }
      disk := Fill(disk, inode, content);
      PreparedKeeps(before, disk, temp, inode);
      Before(before, disk, target, temp, content, answers);
      if answers.steps == 2 { return Crashed; }
      if answers.syncFails {
        CleanUp(before, temp, content, answers);
        Before(before, disk, target, temp, content, answers);
        return WriteFailed;
      }
      disk := SyncFile(disk, inode);
      PreparedKeeps(before, disk, temp, inode);
      Before(before, disk, target, temp, content, answers);
      if answers.steps == 3 { return Crashed; }
      ghost var ready := disk;
      var renamed := RenameWithRetry(temp, target, 3, answers.renames);
      if !renamed {
        CleanUp(before, temp, content, answers);
        Before(before, disk, target, temp, content, answers);
        return WriteFailed;
      }
      RenamedIsReplaced(before, ready, target, temp, inode, content);
      After(before, disk, target, temp, content, answers);
      if answers.steps == 4 { return Crashed; }
      match answers.directory {
        case Synced =>
          SyncSettlesAll(before, ready, target, temp, inode, content);
          disk := SyncDirectory(disk);
          AtLast(before, disk, target, temp, content, answers);
        case Unsupported =>
        case Failed =>
          CleanUp(before, temp, content, answers);
          After(before, disk, target, temp, content, answers);
          return WriteFailed;
      }
      outcome := Written;
    }

    /** Best-effort removal of the temp file. */
    method CleanUp(ghost before: Disk<C>, temp: string, ghost content: C, answers: Answers)
      requires Sane(disk)
      modifies this
      ensures Sane(disk)
      ensures !answers.unlinkFails ==> disk.entry(temp).None?
      ensures forall name :: name != temp && Kept(before, old(disk), name) ==> Kept(before, disk, name)
      ensures forall name :: name != temp && Replaced(before, old(disk), name, content) ==> Replaced(before, disk, name, content)
    {
      hide Sane, Kept, Replaced;
      if disk.entry(temp).Some? && !answers.unlinkFails {
        UnlinkKeeps(disk, temp);
        ghost var d := disk;
        disk := Unlink(disk, temp);
        forall name | name != temp
          ensures Kept(before, d, name) ==> Kept(before, disk, name)
          ensures Replaced(before, d, name, content) ==> Replaced(before, disk, name, content)
        {
          KeptAfter(before, d, disk, name, content);
        }
      }
    }
  }

  /**
   * The same sequence without the file sync (atomicWrite) is atomic only while the
   * system runs: a crash after its rename may leave any content at all.
   */
  lemma UnsyncedRenameMayLeaveAnything<C(!new)>(
    d: Disk<C>, target: string, temp: string, inode: nat, blank: C, content: C, garbage: C)
    requires temp != target && inode !in d.content
    ensures var r := Rename(Fill(Create(d, temp, inode, blank), inode, content), temp, target);
      View(r, target) == Some(content) && MaySurvive(r, target, Some(garbage))
  {
    var r := Rename(Fill(Create(d, temp, inode, blank), inode, content), temp, target);
    assert Some(inode) in r.candidates(target) && inode in r.content && inode !in r.synced;
  }
}
