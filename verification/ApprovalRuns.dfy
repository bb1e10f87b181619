/**
 * Approval safety over whole sequences of state writes
 * (src/adapters/evidence-approval-write-guard.ts, src/adapters/persistence.ts).
 */
module ApprovalRuns {
  import opened Results
  import opened ApprovalGuard

  datatype World = World(document: Document, admissions: Admissions)

  /** The protected application issues an admission under a handle never used before. */
  ghost predicate Issues(w: World, w': World) {
    && w'.document == w.document
    && exists handle: Handle, s: SessionState ::
         handle !in w.admissions && w'.admissions == Issue(w.admissions, handle, s)
  }

  /** A write attempt: refused without effect, or checked and then durable, lost or reported failed. */
  ghost predicate Attempts(w: World, w': World, candidate: Candidate, handle: Option<Handle>, parse: DateParse) {
    match Check(w.document, candidate, w.admissions, handle, parse)
    case Err(_) => w' == w
    case Ok(left) =>
      && w'.admissions == left
      && (w'.document == w.document || w'.document == Present(Some(candidate.state.phase), Some(candidate.state)))
  }

  ghost predicate Step(w: World, w': World, parse: DateParse) {
    || Issues(w, w')
    || exists candidate, handle :: Attempts(w, w', candidate, handle, parse)
  }

  ghost predicate StepAt(run: seq<World>, i: nat, parse: DateParse)
    requires i + 1 < |run|
  {
    Step(run[i], run[i + 1], parse)
  }

  /** Any sequence of issues and write attempts; the file is written by nothing else. */
  ghost predicate IsRun(run: seq<World>, parse: DateParse) {
    && run != [] && Coherent(run[0].document) && AdmissionsCoherent(run[0].admissions)
    && forall i :: 0 <= i < |run| - 1 ==> StepAt(run, i, parse)
  }

  function StateOf(d: Document): Option<SessionState> {
    if d.Present? then d.state else None
  }

  predicate Approved(d: Document) {
    d.Present? && d.phase == Some(EXPORT_READY)
  }

  /** An entry: the step makes the file an approved one. */
  predicate Enters(w: World, w': World) {
    !Approved(w.document) && Approved(w'.document)
  }

  /** Everything an entry into EXPORT_READY is authorized by. */
  ghost predicate AuthorizedEntry(w: World, w': World, handle: Handle, parse: DateParse) {
    && StateOf(w.document).Some? && StateOf(w'.document).Some?
    && var previous, next := StateOf(w.document).value, StateOf(w'.document).value;
    && previous.phase == EVIDENCE_REVIEW
    && next.phase == EXPORT_READY && CanonicalApproval(next)
    && SourceBasisOf(previous) == SourceBasisOf(next)
    && (next.policy.requireHumanGates ==> CurrentDecision(next, parse).Some?)
    && (CurrentDecision(next, parse).Some? ==>
          ExactlyOneReceipt(previous.outbox + next.outbox, CurrentDecision(next, parse).value, TransitionAt(next), parse))
    && handle in w.admissions && !w.admissions[handle].consumed
    && w.admissions[handle].basis == BasisOf(next) && w.admissions[handle].transition == next.transition
    && w'.admissions == Consume(w.admissions, handle)
  }

  /** Issued admissions carry one basis, with and without its decision. */
  ghost predicate AdmissionsCoherent(admissions: Admissions) {
    forall handle :: handle in admissions ==> admissions[handle].basis.0 == admissions[handle].sourceBasis
  }

  lemma CoherentStep(w: World, w': World, parse: DateParse)
    requires Coherent(w.document) && AdmissionsCoherent(w.admissions) && Step(w, w', parse)
    ensures Coherent(w'.document) && AdmissionsCoherent(w'.admissions)
    ensures forall handle :: handle in w.admissions && w.admissions[handle].consumed ==>
      handle in w'.admissions && w'.admissions[handle].consumed
  {
    hide ReceiptGate, CurrentDecision, CanonicalApproval;
    if !Issues(w, w') {
      var candidate, handle :| Attempts(w, w', candidate, handle, parse);
    }
  }

  /** One accepted entry is authorized in full and burns its admission. */
  lemma EntryIsAuthorized(w: World, w': World, parse: DateParse)
    requires Coherent(w.document) && AdmissionsCoherent(w.admissions)
    requires Step(w, w', parse) && Enters(w, w')
    ensures exists handle :: AuthorizedEntry(w, w', handle, parse)
  {
    hide ReceiptGate, ExactlyOneReceipt;
    var candidate, handle :| Attempts(w, w', candidate, handle, parse);
    var next := candidate.state;
    var previous := StateOf(w.document).value;
    var current := CurrentDecision(next, parse);
    if current.Some? {
      GateMeansOneReceipt(previous.outbox + next.outbox, current.value, TransitionAt(next), parse);
    }
    assert w.admissions[handle.value].basis.0 == w.admissions[handle.value].sourceBasis;
    assert AuthorizedEntry(w, w', handle.value, parse);
  }

  /** While approved, a step keeps the file or replaces it by a state of the same basis. */
  lemma ApprovedStepKeepsBasis(w: World, w': World, parse: DateParse)
    requires Coherent(w.document) && Step(w, w', parse) && Approved(w.document)
    ensures || w'.document == w.document
            || (StateOf(w.document).Some? && StateOf(w'.document).Some?
                && BasisOf(StateOf(w.document).value) == BasisOf(StateOf(w'.document).value))
  {
    hide ReceiptGate, CurrentDecision, CanonicalApproval, Admits;
    if !Issues(w, w') {
      var candidate, handle :| Attempts(w, w', candidate, handle, parse);
    }
  }

  lemma {:induction false} RunCoherent(run: seq<World>, parse: DateParse, i: nat)
    requires IsRun(run, parse) && i < |run|
    ensures Coherent(run[i].document) && AdmissionsCoherent(run[i].admissions)
  {
    hide Step;
    if i > 0 {
      RunCoherent(run, parse, i - 1);
      assert StepAt(run, i - 1, parse);
      CoherentStep(run[i - 1], run[i], parse);
    }
  }

  /**
   * The basis is constant from an entry through the write that leaves EXPORT_READY:
   * between any two instants with an approved file at every instant but perhaps the
   * last, the approval basis does not change.
   */
  lemma {:induction false} BasisConstantWhileApproved(run: seq<World>, parse: DateParse, i: nat, j: nat)
    requires IsRun(run, parse) && i <= j < |run|
    requires forall k :: i <= k < j ==> Approved(run[k].document)
    requires StateOf(run[i].document).Some?
    ensures StateOf(run[j].document).Some?
    ensures BasisOf(StateOf(run[j].document).value) == BasisOf(StateOf(run[i].document).value)
    decreases j - i
  {
    hide Step, BasisOf;
    if i < j {
      BasisConstantWhileApproved(run, parse, i, j - 1);
      RunCoherent(run, parse, j - 1);
      assert StepAt(run, j - 1, parse);
      ApprovedStepKeepsBasis(run[j - 1], run[j], parse);
    }
  }

  lemma {:induction false} ConsumedStays(run: seq<World>, parse: DateParse, i: nat, j: nat, handle: Handle)
    requires IsRun(run, parse) && i <= j < |run|
    requires handle in run[i].admissions && run[i].admissions[handle].consumed
    ensures handle in run[j].admissions && run[j].admissions[handle].consumed
    decreases j - i
  {
    hide Step;
    if i < j {
      ConsumedStays(run, parse, i, j - 1, handle);
      RunCoherent(run, parse, j - 1);
      assert StepAt(run, j - 1, parse);
      CoherentStep(run[j - 1], run[j], parse);
    }
  }

  /** An admission authorizes one entry in the whole run. */
  lemma AdmissionsAreSingleUse(run: seq<World>, parse: DateParse, i: nat, j: nat, first: Handle, second: Handle)
    requires IsRun(run, parse) && i < j && j + 1 < |run|
    requires AuthorizedEntry(run[i], run[i + 1], first, parse)
    requires AuthorizedEntry(run[j], run[j + 1], second, parse)
    ensures first != second
  {
    hide Step, CurrentDecision, ExactlyOneReceipt;
    ConsumedStays(run, parse, i + 1, j, first);
  }

  /**
   * Approval safety. In any run that starts with no approved file, every approved
   * file goes back to an authorized entry, has been approved ever since, and still
   * has the basis that was admitted and entered.
   */
  lemma {:induction false} ApprovedIsAuthorized(run: seq<World>, parse: DateParse, j: nat)
    returns (i: nat, handle: Handle)
    requires IsRun(run, parse) && j < |run|
    requires !Approved(run[0].document) && Approved(run[j].document)
    ensures i < j && Enters(run[i], run[i + 1]) && AuthorizedEntry(run[i], run[i + 1], handle, parse)
    ensures forall k :: i < k <= j ==> Approved(run[k].document)
    ensures StateOf(run[j].document).Some?
    ensures run[i].admissions[handle].basis == BasisOf(StateOf(run[j].document).value)
  {
    hide Step, CurrentDecision, ExactlyOneReceipt, CanonicalApproval;
    assert StepAt(run, j - 1, parse);
    RunCoherent(run, parse, j - 1);
    if Approved(run[j - 1].document) {
      i, handle := ApprovedIsAuthorized(run, parse, j - 1);
    } else {
      i := j - 1;
      EntryIsAuthorized(run[i], run[j], parse);
      handle :| AuthorizedEntry(run[i], run[j], handle, parse);
    }
    BasisConstantWhileApproved(run, parse, i + 1, j);
  }

  /** A file that is approved but unreadable, or has no phase, is never overwritten. */
  lemma UnreadableFileIsKept(w: World, w': World, parse: DateParse)
    requires Step(w, w', parse) && w.document.Present? && w.document.state.None?
    requires w.document.phase.None? || w.document.phase.value == EXPORT_READY
    ensures w'.document == w.document
  {
    hide ReceiptGate, CurrentDecision, CanonicalApproval, Admits;
    if !Issues(w, w') {
      var candidate, handle :| Attempts(w, w', candidate, handle, parse);
    }
  }

  /** So along any run such a file stays as it is for ever, whatever is admitted and attempted. */
  lemma {:induction false} UnreadableFileStays(run: seq<World>, parse: DateParse, i: nat, j: nat)
    requires IsRun(run, parse) && i <= j < |run|
    requires var d := run[i].document;
      d.Present? && d.state.None? && (d.phase.None? || d.phase.value == EXPORT_READY)
    ensures run[j].document == run[i].document
    decreases j - i
  {
    hide Step;
    if i < j {
      UnreadableFileStays(run, parse, i, j - 1);
      assert StepAt(run, j - 1, parse);
      UnreadableFileIsKept(run[j - 1], run[j], parse);
    }
  }
}
