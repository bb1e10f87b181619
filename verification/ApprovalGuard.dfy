/**
 * The evidence-approval write boundary (src/adapters/evidence-approval-write-guard.ts,
 * src/audit/proofgraph/evidence-approval-admission.ts, src/adapters/persistence.ts):
 * one guarded write of the session state.
 *
 * Canonical JSON and its hash are injective, so digests are the values they digest.
 */
module ApprovalGuard {
  import opened Results

  const EVIDENCE_REVIEW := "EVIDENCE_REVIEW"
  const EXPORT_READY := "EXPORT_READY"
  const IMPLEMENTATION := "IMPLEMENTATION"
  const APPROVE := "APPROVE"

  /** Date.parse: the instant a timestamp string denotes, if any. */
  type DateParse = string -> Option<int>

  datatype Transition = Transition(from: string, to: string, event: string, at: string)

  datatype ReviewDecision = ReviewDecision(verdict: string, rationale: string, decidedAt: string, identity: string)

  /** Detail of a semantic audit operation; absent fields are absent. */
  datatype Detail = Detail(
    kind: Option<string>,
    decidedAt: Option<string>,
    verdict: Option<string>,
    rationale: Option<string>,
    transitionAt: Option<string>,
    identity: Option<string>,
    gatePhase: Option<string>,
    toPhase: Option<string>,
    transitionEvent: Option<string>)

  /** An outbox entry; only semantic operations have a detail. */
  datatype Operation = Operation(id: string, detail: Option<Detail>, rest: string)

  datatype Policy = Policy(requireHumanGates: bool, rest: string)

  /** Approval-relevant evidence apart from policy, binding and decision. */
  datatype Evidence = Evidence(
    reviewedAt: Option<string>,
    implementedAt: Option<string>,
    baseAuthority: Option<string>,
    rest: string)

  datatype SessionState = SessionState(
    session: string,
    binding: string,
    phase: string,
    transition: Option<Transition>,
    decision: Option<ReviewDecision>,
    policy: Policy,
    evidence: Evidence,
    outbox: seq<Operation>,
    metadata: string)

  /** The approval basis without the decision. */
  datatype SourceBasis = SourceBasis(session: string, binding: string, policy: Policy, evidence: Evidence)

  function SourceBasisOf(s: SessionState): SourceBasis {
    SourceBasis(s.session, s.binding, s.policy, s.evidence)
  }

  function BasisOf(s: SessionState): (SourceBasis, Option<ReviewDecision>) {
    (SourceBasisOf(s), s.decision)
  }

  // ---- Receipts ----

  predicate DecisionReceiptMatches(d: Detail, decision: ReviewDecision, transitionAt: string, parse: DateParse) {
    && d.kind == Some("decision")
    && d.decidedAt == Some(decision.decidedAt)
    && d.verdict == Some(decision.verdict)
    && d.rationale == Some(decision.rationale)
    && d.transitionAt == Some(transitionAt)
    && d.identity == Some(decision.identity)
    && parse(decision.decidedAt).Some? && parse(transitionAt).Some?
    && parse(decision.decidedAt).value <= parse(transitionAt).value
  }

  predicate IsEvidenceGateReceipt(d: Detail) {
    d.gatePhase == Some(EVIDENCE_REVIEW) && d.toPhase == Some(EXPORT_READY) && d.transitionEvent == Some(APPROVE)
  }

  /** The operation is a receipt of the decision and the transition, at any gate. */
  predicate Attests(op: Operation, decision: ReviewDecision, transitionAt: Option<string>, parse: DateParse) {
    transitionAt.Some? && op.detail.Some? && DecisionReceiptMatches(op.detail.value, decision, transitionAt.value, parse)
  }

  predicate AttestsAtGate(op: Operation, decision: ReviewDecision, transitionAt: Option<string>, parse: DateParse) {
    Attests(op, decision, transitionAt, parse) && IsEvidenceGateReceipt(op.detail.value)
  }

  predicate AttestsElsewhere(op: Operation, decision: ReviewDecision, transitionAt: Option<string>, parse: DateParse) {
    Attests(op, decision, transitionAt, parse) && !IsEvidenceGateReceipt(op.detail.value)
  }

  ghost predicate Conflicting(ops: seq<Operation>) {
    exists i, j :: 0 <= i < j < |ops| && ops[i].id == ops[j].id && ops[i] != ops[j]
  }

  /** Identities of the evidence-gate receipts in two outboxes. */
  function EvidenceReceipts(
    ops: seq<Operation>, decision: ReviewDecision, transitionAt: Option<string>, parse: DateParse): set<string>
  {
    set i | 0 <= i < |ops| && AttestsAtGate(ops[i], decision, transitionAt, parse) :: ops[i].id
  }

  ghost predicate OtherGateReceipt(
    ops: seq<Operation>, decision: ReviewDecision, transitionAt: Option<string>, parse: DateParse)
  {
    exists i :: 0 <= i < |ops| && AttestsElsewhere(ops[i], decision, transitionAt, parse)
  }

  datatype ReceiptScan = ReceiptScan(evidenceMatches: nat, otherGate: bool, conflict: bool)

  /** scanDecisionReceipts over both outboxes: an operation carried unchanged counts once. */
  method ScanDecisionReceipts(
    previous: seq<Operation>, next: seq<Operation>, decision: ReviewDecision, transitionAt: Option<string>,
    parse: DateParse)
    returns (scan: ReceiptScan)
    ensures scan.conflict <==> Conflicting(previous + next)
    ensures !scan.conflict ==>
      && scan.evidenceMatches == |EvidenceReceipts(previous + next, decision, transitionAt, parse)|
      && (scan.otherGate <==> OtherGateReceipt(previous + next, decision, transitionAt, parse))
  {
    hide DecisionReceiptMatches, IsEvidenceGateReceipt, EvidenceReceipts, OtherGateReceipt;
    var ops := previous + next;
    var evidenceMatches: nat := 0;
    var otherGate := false;
    var seen: map<string, Operation> := map[];
    NoReceipts(ops, decision, transitionAt, parse);
    for n := 0 to |ops|
      invariant forall id :: id in seen <==> exists k :: 0 <= k < n && ops[k].id == id
      invariant forall k :: 0 <= k < n ==> ops[k].id in seen && seen[ops[k].id] == ops[k]
      invariant evidenceMatches == |EvidenceReceipts(ops[..n], decision, transitionAt, parse)|
      invariant otherGate <==> OtherGateReceipt(ops[..n], decision, transitionAt, parse)
    {
      var op := ops[n];
      if op.id in seen {
        if seen[op.id] != op {
          return ReceiptScan(evidenceMatches, otherGate, true);
        }
        ReceiptAgain(ops, n, decision, transitionAt, parse);
        continue;
      }
      ReceiptFirst(ops, n, decision, transitionAt, parse);
      seen := seen[op.id := op];
      if !Attests(op, decision, transitionAt, parse) {
        continue;
      }
      if IsEvidenceGateReceipt(op.detail.value) {
        evidenceMatches := evidenceMatches + 1;
      } else {
        otherGate := true;
      }
    }
    assert ops[..|ops|] == ops;
    scan := ReceiptScan(evidenceMatches, otherGate, false);
  }

  lemma NoReceipts(ops: seq<Operation>, decision: ReviewDecision, transitionAt: Option<string>, parse: DateParse)
    ensures EvidenceReceipts(ops[..0], decision, transitionAt, parse) == {}
    ensures !OtherGateReceipt(ops[..0], decision, transitionAt, parse)
  {
  }

  lemma ReceiptsSnoc(
    ops: seq<Operation>, n: nat, decision: ReviewDecision, transitionAt: Option<string>, parse: DateParse)
    requires n < |ops|
    ensures EvidenceReceipts(ops[..n + 1], decision, transitionAt, parse) ==
      EvidenceReceipts(ops[..n], decision, transitionAt, parse)
        + (if AttestsAtGate(ops[n], decision, transitionAt, parse) then {ops[n].id} else {})
    ensures OtherGateReceipt(ops[..n + 1], decision, transitionAt, parse) <==>
      OtherGateReceipt(ops[..n], decision, transitionAt, parse) || AttestsElsewhere(ops[n], decision, transitionAt, parse)
  {
    hide AttestsAtGate, AttestsElsewhere;
    var a, b := ops[..n], ops[..n + 1];
    assert forall k :: 0 <= k < n ==> a[k] == b[k];
    assert b[n] == ops[n];
  }

  /** An operation already met unchanged adds nothing. */
  lemma ReceiptAgain(
    ops: seq<Operation>, n: nat, decision: ReviewDecision, transitionAt: Option<string>, parse: DateParse)
    requires n < |ops|
    requires exists k :: 0 <= k < n && ops[k] == ops[n]
    ensures EvidenceReceipts(ops[..n + 1], decision, transitionAt, parse) ==
      EvidenceReceipts(ops[..n], decision, transitionAt, parse)
    ensures OtherGateReceipt(ops[..n + 1], decision, transitionAt, parse) <==>
      OtherGateReceipt(ops[..n], decision, transitionAt, parse)
  {
    hide AttestsAtGate, AttestsElsewhere;
    ReceiptsSnoc(ops, n, decision, transitionAt, parse);
    var k :| 0 <= k < n && ops[k] == ops[n];
    assert ops[..n][k] == ops[n];
  }

  lemma ReceiptFirst(
    ops: seq<Operation>, n: nat, decision: ReviewDecision, transitionAt: Option<string>, parse: DateParse)
    requires n < |ops|
    requires forall k :: 0 <= k < n ==> ops[k].id != ops[n].id
    ensures |EvidenceReceipts(ops[..n + 1], decision, transitionAt, parse)| ==
      |EvidenceReceipts(ops[..n], decision, transitionAt, parse)|
        + (if AttestsAtGate(ops[n], decision, transitionAt, parse) then 1 else 0)
    ensures OtherGateReceipt(ops[..n + 1], decision, transitionAt, parse) <==>
      OtherGateReceipt(ops[..n], decision, transitionAt, parse) || AttestsElsewhere(ops[n], decision, transitionAt, parse)
  {
    hide AttestsAtGate, AttestsElsewhere;
    ReceiptsSnoc(ops, n, decision, transitionAt, parse);
    assert ops[n].id !in EvidenceReceipts(ops[..n], decision, transitionAt, parse);
  }

  datatype Gate = EvidenceGate | OtherGate | Ambiguous | NoGate

  /** What the receipts of a decision prove. */
  ghost function ReceiptGate(
    ops: seq<Operation>, decision: ReviewDecision, transitionAt: Option<string>, parse: DateParse): Gate
  {
    var n := |EvidenceReceipts(ops, decision, transitionAt, parse)|;
    var other := OtherGateReceipt(ops, decision, transitionAt, parse);
    if Conflicting(ops) || n > 1 || (n == 1 && other) then Ambiguous
    else if n == 1 then EvidenceGate
    else if other then OtherGate
    else NoGate
  }

  method DecisionReceiptGate(
    previous: seq<Operation>, next: seq<Operation>, decision: ReviewDecision, transitionAt: Option<string>,
    parse: DateParse)
    returns (gate: Gate)
    ensures gate == ReceiptGate(previous + next, decision, transitionAt, parse)
  {
    var scan := ScanDecisionReceipts(previous, next, decision, transitionAt, parse);
    if scan.conflict || scan.evidenceMatches > 1 || (scan.evidenceMatches == 1 && scan.otherGate) {
      return Ambiguous;
    }
    if scan.evidenceMatches == 1 { return EvidenceGate; }
    if scan.otherGate { return OtherGate; }
    gate := NoGate;
  }

  /** The outboxes hold one receipt of the decision: at the evidence gate, with nothing contradicting it. */
  ghost predicate ExactlyOneReceipt(
    ops: seq<Operation>, decision: ReviewDecision, transitionAt: Option<string>, parse: DateParse)
  {
    && !Conflicting(ops)
    && exists receipt: Operation :: OnlyReceipt(receipt, ops, decision, transitionAt, parse)
  }

  ghost predicate OnlyReceipt(
    receipt: Operation, ops: seq<Operation>, decision: ReviewDecision, transitionAt: Option<string>, parse: DateParse)
  {
    && receipt in ops && AttestsAtGate(receipt, decision, transitionAt, parse)
    && forall op :: op in ops && Attests(op, decision, transitionAt, parse) ==> op == receipt
  }

  lemma GateMeansOneReceipt(
    ops: seq<Operation>, decision: ReviewDecision, transitionAt: Option<string>, parse: DateParse)
    ensures ReceiptGate(ops, decision, transitionAt, parse) == EvidenceGate <==>
      ExactlyOneReceipt(ops, decision, transitionAt, parse)
  {
    hide DecisionReceiptMatches, IsEvidenceGateReceipt;
    if ReceiptGate(ops, decision, transitionAt, parse) == EvidenceGate {
      GateHasOneReceipt(ops, decision, transitionAt, parse);
    }
    if ExactlyOneReceipt(ops, decision, transitionAt, parse) {
      hide Attests;
      var receipt :| OnlyReceipt(receipt, ops, decision, transitionAt, parse);
      OneReceiptSuffices(receipt, ops, decision, transitionAt, parse);
    }
  }

  lemma GateHasOneReceipt(
    ops: seq<Operation>, decision: ReviewDecision, transitionAt: Option<string>, parse: DateParse)
    requires |EvidenceReceipts(ops, decision, transitionAt, parse)| == 1
    requires !OtherGateReceipt(ops, decision, transitionAt, parse) && !Conflicting(ops)
    ensures exists receipt: Operation :: OnlyReceipt(receipt, ops, decision, transitionAt, parse)
  {
    hide DecisionReceiptMatches, IsEvidenceGateReceipt;
    var ids := EvidenceReceipts(ops, decision, transitionAt, parse);
    var id :| id in ids;
    SingletonSet(ids, id);
    var i :| 0 <= i < |ops| && AttestsAtGate(ops[i], decision, transitionAt, parse) && ops[i].id == id;
    forall op | op in ops && Attests(op, decision, transitionAt, parse) ensures op == ops[i] {
      var k :| 0 <= k < |ops| && ops[k] == op;
      assert !AttestsElsewhere(ops[k], decision, transitionAt, parse);
      assert ops[k].id in ids;
    }
    assert OnlyReceipt(ops[i], ops, decision, transitionAt, parse);
  }

  lemma OneReceiptSuffices(
    receipt: Operation, ops: seq<Operation>, decision: ReviewDecision, transitionAt: Option<string>, parse: DateParse)
    requires OnlyReceipt(receipt, ops, decision, transitionAt, parse)
    ensures EvidenceReceipts(ops, decision, transitionAt, parse) == {receipt.id}
    ensures !OtherGateReceipt(ops, decision, transitionAt, parse)
  {
    hide DecisionReceiptMatches, IsEvidenceGateReceipt;
  }

  lemma SingletonSet<T>(s: set<T>, x: T)
    requires x in s && |s| == 1
    ensures s == {x}
  {
    assert |s - {x}| == 0;
  }

  // ---- Admissions ----

  /** What the issuing application checked; all handles live in one process. */
  datatype Admission = Admission(
    session: string,
    binding: string,
    basis: (SourceBasis, Option<ReviewDecision>),
    sourceBasis: SourceBasis,
    transition: Option<Transition>,
    consumed: bool)

  type Handle = nat
  type Admissions = map<Handle, Admission>

  function Issue(admissions: Admissions, handle: Handle, s: SessionState): Admissions {
    admissions[handle := Admission(s.session, s.binding, BasisOf(s), SourceBasisOf(s), s.transition, false)]
  }

  /** An admission is accepted for exactly the state and predecessor it was issued for, once. */
  predicate Admits(admissions: Admissions, handle: Option<Handle>, next: SessionState, previous: SessionState) {
    && handle.Some? && handle.value in admissions
    && var record := admissions[handle.value];
    && !record.consumed
    && record.session == next.session
    && record.binding == next.binding
    && record.sourceBasis == SourceBasisOf(previous)
    && record.transition == next.transition
    && record.basis == BasisOf(next)
  }

  function Consume(admissions: Admissions, handle: Handle): Admissions
    requires handle in admissions
  {
    admissions[handle := admissions[handle].(consumed := true)]
  }

  // ---- The boundary ----

  datatype Refusal =
    | InvalidState
    | PolicyMismatch
    | BaseNotFrozen
    | Unreadable
    | Bootstrap
    | WrongPredecessor
    | WrongTransition
    | BasisChanged
    | DecisionMissing
    | ReceiptMissing(gate: Gate)
    | NotAdmitted
    | WriteFailed

  /** evidenceGateDecisionOf: the recorded decision unless it predates the evidence it would approve. */
  function CurrentDecision(s: SessionState, parse: DateParse): Option<ReviewDecision> {
    if s.decision.None? then None
    else
      var revisionAt := if s.evidence.reviewedAt.Some? then s.evidence.reviewedAt else s.evidence.implementedAt;
      if revisionAt.None? then s.decision
      else
        var decided, revised := parse(s.decision.value.decidedAt), parse(revisionAt.value);
        if decided.None? || revised.None? || decided.value < revised.value then None else s.decision
  }

  predicate CanonicalApproval(s: SessionState) {
    && s.transition.Some?
    && s.transition.value.from == EVIDENCE_REVIEW
    && s.transition.value.to == EXPORT_READY
    && s.transition.value.event == APPROVE
  }

  function TransitionAt(s: SessionState): Option<string> {
    if s.transition.Some? then Some(s.transition.value.at) else None
  }

  /** assertEvidenceApprovalWriteBoundary: the refusal, or the admissions left after the write is allowed. */
  ghost function Boundary(
    previous: Option<SessionState>, next: SessionState, admissions: Admissions, handle: Option<Handle>,
    parse: DateParse)
    : Result<Admissions, Refusal>
  {
    if next.phase != EXPORT_READY || (previous.Some? && previous.value.phase == EXPORT_READY) then
      if previous.Some? && previous.value.phase == EXPORT_READY && BasisOf(previous.value) != BasisOf(next)
      then Err(BasisChanged) else Ok(admissions)
    else if previous.None? then Err(Bootstrap)
    else if previous.value.phase != EVIDENCE_REVIEW then Err(WrongPredecessor)
    else if !CanonicalApproval(next) then Err(WrongTransition)
    else
      var current := CurrentDecision(next, parse);
      if next.policy.requireHumanGates && current.None? then Err(DecisionMissing)
      else
        var gate := if current.None? then EvidenceGate
                    else ReceiptGate(previous.value.outbox + next.outbox, current.value, TransitionAt(next), parse);
        if gate != EvidenceGate then Err(ReceiptMissing(gate))
        else if !Admits(admissions, handle, next, previous.value) then Err(NotAdmitted)
        else Ok(Consume(admissions, handle.value))
  }

  /**
   * The persisted state file: absent, or a document with its root phase (if it has
   * one) and the state the canonical read accepts (if it accepts one).
   */
  datatype Document = Absent | Present(phase: Option<string>, state: Option<SessionState>)

  predicate Coherent(d: Document) {
    d.Present? && d.state.Some? ==> d.phase == Some(d.state.value.phase)
  }

  /** What the caller offers: a state, and whether schema and policy digest accept it. */
  datatype Candidate = Candidate(state: SessionState, schemaValid: bool, policyDigestMatches: bool)

  /** The checks of writeStateAlreadyLocked before it writes. */
  ghost function Check(
    d: Document, candidate: Candidate, admissions: Admissions, handle: Option<Handle>, parse: DateParse)
    : Result<Admissions, Refusal>
  {
    var next := candidate.state;
    if !candidate.schemaValid then Err(InvalidState)
    else if !candidate.policyDigestMatches then Err(PolicyMismatch)
    else if next.phase == IMPLEMENTATION && next.evidence.baseAuthority.None? then Err(BaseNotFrozen)
    else
      var guarded :=
        next.phase == EXPORT_READY
        || (d.Present? && (d.phase.None? || d.phase.value == EXPORT_READY || d.phase.value == "unknown"));
      if !guarded then Ok(admissions)
      else if d.Present? && d.state.None? then Err(Unreadable)
      else Boundary(if d.Present? then d.state else None, next, admissions, handle, parse)
  }

  class StateFile {
    var document: Document
    var admissions: Admissions

    constructor ()
      ensures document == Absent && admissions == map[]
    {
      document, admissions := Absent, map[];
    }

    /** writeStateAlreadyLocked; `persisted` says whether a failing durable write still changed the file. */
    method WriteStateAlreadyLocked(
      candidate: Candidate, handle: Option<Handle>, parse: DateParse, succeeds: bool, persisted: bool)
      returns (result: Result<(), Refusal>)
      modifies this
      ensures var checked := Check(old(document), candidate, old(admissions), handle, parse);
        match checked
        case Err(reason) => result == Err(reason) && document == old(document) && admissions == old(admissions)
        case Ok(left) =>
          && admissions == left
          && result == (if succeeds then Ok(()) else Err(WriteFailed))
          && document == (if succeeds || persisted then Present(Some(candidate.state.phase), Some(candidate.state))
                          else old(document))
    {
      hide ReceiptGate;
      var next := candidate.state;
      if !candidate.schemaValid { return Err(InvalidState); }
      if !candidate.policyDigestMatches { return Err(PolicyMismatch); }
      if next.phase == IMPLEMENTATION && next.evidence.baseAuthority.None? { return Err(BaseNotFrozen); }
      var unknown := document.Present? && (document.phase.None? || document.phase.value == "unknown");
      var approved := document.Present? && document.phase == Some(EXPORT_READY);
      if next.phase == EXPORT_READY || unknown || approved {
        if document.Present? && document.state.None? { return Err(Unreadable); }
        var previous := if document.Present? then document.state else None;
        var verdict := AssertBoundary(previous, next, handle, parse);
        if verdict.Err? { return Err(verdict.error); }
      }
      if succeeds || persisted {
        document := Present(Some(next.phase), Some(next));
      }
      result := if succeeds then Ok(()) else Err(WriteFailed);
    }

    method AssertBoundary(
      previous: Option<SessionState>, next: SessionState, handle: Option<Handle>, parse: DateParse)
      returns (verdict: Result<(), Refusal>)
      modifies this`admissions
      ensures match Boundary(previous, next, old(admissions), handle, parse)
        case Err(reason) => verdict == Err(reason) && admissions == old(admissions)
        case Ok(left) => verdict == Ok(()) && admissions == left
    {
      hide ReceiptGate;
      if next.phase != EXPORT_READY || (previous.Some? && previous.value.phase == EXPORT_READY) {
        if previous.Some? && previous.value.phase == EXPORT_READY && BasisOf(previous.value) != BasisOf(next) {
          return Err(BasisChanged);
        }
        return Ok(());
      }
      if previous.None? { return Err(Bootstrap); }
      if previous.value.phase != EVIDENCE_REVIEW { return Err(WrongPredecessor); }
      if !CanonicalApproval(next) { return Err(WrongTransition); }
      var current := CurrentDecision(next, parse);
      if next.policy.requireHumanGates && current.None? { return Err(DecisionMissing); }
      if current.Some? {
        var gate := DecisionReceiptGate(previous.value.outbox, next.outbox, current.value, TransitionAt(next), parse);
        if gate != EvidenceGate { return Err(ReceiptMissing(gate)); }
      }
      if !Admits(admissions, handle, next, previous.value) { return Err(NotAdmitted); }
      admissions := Consume(admissions, handle.value);
      verdict := Ok(());
    }
  }
}
