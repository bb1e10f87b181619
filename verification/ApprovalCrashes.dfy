/**
 * Approval safety on a file system that may lose power: what any state file that is
 * visible or may come back after a power loss was authorized by
 * (src/adapters/evidence-approval-write-guard.ts, src/adapters/persistence.ts:189-280).
 */
module ApprovalCrashes {
  import opened Results
  import opened ApprovalGuard
  import opened ApprovalRuns
  import opened DurableWrite

  datatype Machine = Machine(disk: Disk<Document>, admissions: Admissions)

  function DocumentOf(seen: Option<Document>): Document {
    if seen.Some? then seen.value else Absent
  }

  /** What the guard sees: the visible state file and the admissions in memory. */
  function Now(m: Machine, path: string): World {
    World(DocumentOf(View(m.disk, path)), m.admissions)
  }

  datatype Event =
    | Issued
    | Write(candidate: Candidate, handle: Option<Handle>, answers: Answers)
    | PowerLoss
    | Elsewhere(answers: Answers)

  /** One guarded write: refused without effect, or replacing the state file as the operating system answers. */
  ghost predicate Writes(m: Machine, after: Machine, path: string, e: Event, parse: DateParse)
    requires e.Write?
  {
    match Check(Now(m, path).document, e.candidate, m.admissions, e.handle, parse)
    case Err(_) => after == m
    case Ok(left) =>
      var content := Present(Some(e.candidate.state.phase), Some(e.candidate.state));
      && after.admissions == left
      && (!Done(e.answers, 4) ==> Kept(m.disk, after.disk, path))
      && (Done(e.answers, 4) && !DirectorySynced(e.answers) ==> Replaced(m.disk, after.disk, path, content))
      && (DirectorySynced(e.answers) ==> SettledAs(after.disk, path, Some(content)))
  }

  /** The process ends, and no admission it held can be used again. */
  function Expired(admissions: Admissions): Admissions {
    map handle | handle in admissions :: admissions[handle].(consumed := true)
  }

  ghost predicate Happens(m: Machine, after: Machine, path: string, e: Event, parse: DateParse) {
    && Sane(after.disk)
    && match e
       case Issued => after.disk == m.disk && Issues(Now(m, path), Now(after, path))
       case Write(_, _, _) => Writes(m, after, path, e, parse)
       case PowerLoss => CrashesTo(m.disk, after.disk) && after.admissions == Expired(m.admissions)
       case Elsewhere(answers) => after.admissions == m.admissions && OtherKept(m.disk, after.disk, path, answers)
  }

  /** The machine before the first event and after every event. */
  datatype Run = Run(machines: seq<Machine>, events: seq<Event>)

  /** A run starts with no approved file, visible or surviving. */
  ghost predicate IsHistory(run: Run, path: string, parse: DateParse) {
    && |run.machines| == |run.events| + 1
    && Sane(run.machines[0].disk) && AdmissionsCoherent(run.machines[0].admissions)
    && (forall seen :: MaySurvive(run.machines[0].disk, path, seen) ==>
          Coherent(DocumentOf(seen)) && !Approved(DocumentOf(seen)))
    && forall i :: 0 <= i < |run.events| ==> Happens(run.machines[i], run.machines[i + 1], path, run.events[i], parse)
  }

  /** The file's basis was admitted and entered before instant j. */
  ghost predicate Authorized(run: Run, path: string, parse: DateParse, j: nat, d: Document) {
    StateOf(d).Some? && exists i, handle :: EnteredAt(run, path, parse, j, i, handle, BasisOf(StateOf(d).value))
  }

  ghost predicate EnteredAt(run: Run, path: string, parse: DateParse, j: nat, i: nat, handle: Handle, basis: (SourceBasis, Option<ReviewDecision>)) {
    && i < j < |run.machines|
    && AuthorizedEntry(Now(run.machines[i], path), Now(run.machines[i + 1], path), handle, parse)
    && run.machines[i].admissions[handle].basis == basis
  }

  /** Every file that is visible or may survive is coherent, and authorized if it is approved. */
  ghost predicate Guarded(run: Run, path: string, parse: DateParse, j: nat)
    requires j < |run.machines|
  {
    && Sane(run.machines[j].disk) && AdmissionsCoherent(run.machines[j].admissions)
    && forall seen :: MaySurvive(run.machines[j].disk, path, seen) ==>
         Coherent(DocumentOf(seen)) && (Approved(DocumentOf(seen)) ==> Authorized(run, path, parse, j, DocumentOf(seen)))
  }

  lemma VisibleSurvives(d: Disk<Document>, path: string)
    requires Sane(d)
    ensures MaySurvive(d, path, View(d, path))
  {
    assert d.entry(path) in d.candidates(path);
    if d.entry(path).Some? {
      assert Some(d.entry(path).value) in d.candidates(path);
    }
  }

  /** The visible file has been synced, or a power loss could leave an approved file out of nothing. */
  lemma GuardedIsOnDisk(run: Run, path: string, parse: DateParse, j: nat)
    requires j < |run.machines| && Guarded(run, path, parse, j)
    ensures OnDisk(run.machines[j].disk, path)
  {
    UnsyncedMayBeAnything(run.machines[j].disk, path, Present(Some(EXPORT_READY), None));
  }

  lemma AuthorizedLater(run: Run, path: string, parse: DateParse, j: nat, d: Document)
    requires Authorized(run, path, parse, j, d) && j + 1 < |run.machines|
    ensures Authorized(run, path, parse, j + 1, d)
  {
    hide AuthorizedEntry;
    var i, handle :| EnteredAt(run, path, parse, j, i, handle, BasisOf(StateOf(d).value));
    assert EnteredAt(run, path, parse, j + 1, i, handle, BasisOf(StateOf(d).value));
  }

  /** A write is an attempt on the visible file; after it a power loss leaves what it could have left, or the visible file. */
  lemma WriteIsAttempt(m: Machine, after: Machine, path: string, e: Event, parse: DateParse)
    requires e.Write? && Sane(m.disk) && Sane(after.disk) && Writes(m, after, path, e, parse)
    ensures Attempts(Now(m, path), Now(after, path), e.candidate, e.handle, parse)
    ensures forall seen :: MaySurvive(after.disk, path, seen) ==>
      MaySurvive(m.disk, path, seen) || seen == View(after.disk, path)
  {
    hide Check, MaySurvive, View;
    assert DirectorySynced(e.answers) ==> Done(e.answers, 4);
    hide Done, DirectorySynced;
  }

  /** A write leaves the visible file as it was, or authorized if it is approved. */
  lemma WriteIsGuarded(run: Run, path: string, parse: DateParse, j: nat)
    requires IsHistory(run, path, parse) && j < |run.events| && run.events[j].Write? && Guarded(run, path, parse, j)
    ensures Guarded(run, path, parse, j + 1)
  {
    var m, after := run.machines[j], run.machines[j + 1];
    var w, w' := Now(m, path), Now(after, path);
    assert Happens(m, after, path, run.events[j], parse);
    VisibleSurvives(m.disk, path);
    hide MaySurvive, Check, Sane, AuthorizedEntry, CurrentDecision, CanonicalApproval, IsHistory, BasisOf, Attempts, Writes;
    WriteIsAttempt(m, after, path, run.events[j], parse);
    assert Step(w, w', parse);
    CoherentStep(w, w', parse);
    VisibleIsAuthorized(run, path, parse, j);
    forall seen | MaySurvive(after.disk, path, seen)
      ensures Coherent(DocumentOf(seen)) && (Approved(DocumentOf(seen)) ==> Authorized(run, path, parse, j + 1, DocumentOf(seen)))
    {
      if MaySurvive(m.disk, path, seen) && Approved(DocumentOf(seen)) {
        AuthorizedLater(run, path, parse, j, DocumentOf(seen));
      }
    }
  }

  /** The visible file after a step of the guard, if approved, was entered now or keeps the basis it had. */
  lemma VisibleIsAuthorized(run: Run, path: string, parse: DateParse, j: nat)
    requires j + 1 < |run.machines|
    requires var w, w' := Now(run.machines[j], path), Now(run.machines[j + 1], path);
      && Coherent(w.document) && AdmissionsCoherent(w.admissions) && Step(w, w', parse)
      && (Approved(w.document) ==> Authorized(run, path, parse, j, w.document))
    ensures var d := Now(run.machines[j + 1], path).document;
      Approved(d) ==> Authorized(run, path, parse, j + 1, d)
  {
    var w, w' := Now(run.machines[j], path), Now(run.machines[j + 1], path);
    hide Step, ExactlyOneReceipt, CurrentDecision, CanonicalApproval, BasisOf, SourceBasisOf, View, DocumentOf;
    if Approved(w'.document) {
      if Approved(w.document) {
        ApprovedStepKeepsBasis(w, w', parse);
        AuthorizedLater(run, path, parse, j, w.document);
      } else {
        EntryIsAuthorized(w, w', parse);
        var handle :| AuthorizedEntry(w, w', handle, parse);
        assert EnteredAt(run, path, parse, j + 1, j, handle, BasisOf(StateOf(w'.document).value));
      }
    }
  }

  /** Everything else leaves of the file what could have survived, and no usable admission it did not have. */
  lemma OtherIsGuarded(run: Run, path: string, parse: DateParse, j: nat)
    requires IsHistory(run, path, parse) && j < |run.events| && !run.events[j].Write? && Guarded(run, path, parse, j)
    ensures Guarded(run, path, parse, j + 1)
  {
    var m, after := run.machines[j], run.machines[j + 1];
    assert Happens(m, after, path, run.events[j], parse);
    VisibleSurvives(m.disk, path);
    GuardedIsOnDisk(run, path, parse, j);
    if run.events[j].PowerLoss? { CrashSettles(m.disk, after.disk, path); }
    hide MaySurvive, Sane, IsHistory, BasisOf, CrashesTo, View, Authorized, OnDisk, Coherent, Approved, DirectorySynced;
    forall seen | MaySurvive(after.disk, path, seen)
      ensures Coherent(DocumentOf(seen)) && (Approved(DocumentOf(seen)) ==> Authorized(run, path, parse, j + 1, DocumentOf(seen)))
    {
      assert MaySurvive(m.disk, path, seen);
      if Approved(DocumentOf(seen)) {
        AuthorizedLater(run, path, parse, j, DocumentOf(seen));
      }
    }
  }

  /**
   * Approval safety through power losses. In any run of issues, writes, power losses and
   * writes of other files, every state file that is visible or may come back, if it is
   * approved, carries the basis that an earlier authorized entry admitted: a power loss
   * may undo an entry, or a write that left the approval, but it never makes one.
   */
  lemma {:induction false} SurvivorsAreAuthorized(run: Run, path: string, parse: DateParse, j: nat)
    requires IsHistory(run, path, parse) && j < |run.machines|
    ensures Guarded(run, path, parse, j)
  {
    if j > 0 {
      hide Guarded, IsHistory;
      HistoryLength(run, path, parse);
      SurvivorsAreAuthorized(run, path, parse, j - 1);
      if run.events[j - 1].Write? {
        WriteIsGuarded(run, path, parse, j - 1);
      } else {
        OtherIsGuarded(run, path, parse, j - 1);
      }
    }
  }

  lemma HistoryLength(run: Run, path: string, parse: DateParse)
    requires IsHistory(run, path, parse)
    ensures |run.machines| == |run.events| + 1
  {
  }

  /** An admission that was used, or outlived by its process, is never usable again. */
  lemma {:induction false} UsedStaysUsed(run: Run, path: string, parse: DateParse, i: nat, j: nat, handle: Handle)
    requires IsHistory(run, path, parse) && i <= j < |run.machines|
    requires var a := run.machines[i].admissions; handle in a && a[handle].consumed
    ensures var a := run.machines[j].admissions; handle in a && a[handle].consumed
    decreases j - i
  {
    if i < j {
      UsedStaysUsed(run, path, parse, i, j - 1, handle);
      var m, after, e := run.machines[j - 1], run.machines[j], run.events[j - 1];
      assert Happens(m, after, path, e, parse);
      SurvivorsAreAuthorized(run, path, parse, j - 1);
      VisibleSurvives(m.disk, path);
      hide IsHistory, Check, MaySurvive, Authorized, Attempts, Writes, Sane;
      if e.Write? {
        WriteIsAttempt(m, after, path, e, parse);
        assert Step(Now(m, path), Now(after, path), parse);
        CoherentStep(Now(m, path), Now(after, path), parse);
      }
    }
  }

  /** So through any power losses one admission authorizes one entry. */
  lemma OneEntryEach(run: Run, path: string, parse: DateParse, i: nat, j: nat, first: Handle, second: Handle)
    requires IsHistory(run, path, parse) && i < j && j + 1 < |run.machines|
    requires AuthorizedEntry(Now(run.machines[i], path), Now(run.machines[i + 1], path), first, parse)
    requires AuthorizedEntry(Now(run.machines[j], path), Now(run.machines[j + 1], path), second, parse)
    ensures first != second
  {
    hide CurrentDecision, ExactlyOneReceipt, CanonicalApproval, IsHistory;
    UsedStaysUsed(run, path, parse, i + 1, j, first);
  }
}
