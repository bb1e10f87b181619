/**
 * What the evidence-approval guard answers, in terms of the fields of the states, the
 * receipts and the admission alone (src/adapters/evidence-approval-write-guard.ts,
 * src/state/evidence-gate-decision.ts, src/adapters/persistence.ts).
 */
module ApprovalAnswers {
  import opened Results
  import opened ApprovalGuard

  // ---- Reference definitions ----

  /** Both instants parse, and the first is not before the second. */
  predicate NotBefore(parse: DateParse, later: string, earlier: string) {
    match (parse(later), parse(earlier))
    case (Some(x), Some(y)) => y <= x
    case _ => false
  }

  /** The state records a decision that was not taken before the review, or else the implementation, it is about. */
  predicate DecidedInTime(s: SessionState, parse: DateParse) {
    match (s.decision, s.evidence.reviewedAt, s.evidence.implementedAt)
    case (None, _, _) => false
    case (Some(decision), Some(reviewed), _) => NotBefore(parse, decision.decidedAt, reviewed)
    case (Some(decision), None, Some(implemented)) => NotBefore(parse, decision.decidedAt, implemented)
    case (Some(_), None, None) => true
  }

  /** The operation carries the decision for a transition that did not predate it, whatever gate it names. */
  predicate Carries(op: Operation, decision: ReviewDecision, at: string, parse: DateParse) {
    match op.detail
    case None => false
    case Some(d) =>
      && d == Detail(Some("decision"), Some(decision.decidedAt), Some(decision.verdict), Some(decision.rationale),
                     Some(at), Some(decision.identity), d.gatePhase, d.toPhase, d.transitionEvent)
      && NotBefore(parse, at, decision.decidedAt)
  }

  predicate AtFinalGate(op: Operation) {
    op.detail.Some?
    && op.detail.value.gatePhase == Some("EVIDENCE_REVIEW")
    && op.detail.value.toPhase == Some("EXPORT_READY")
    && op.detail.value.transitionEvent == Some("APPROVE")
  }

  /** Equal ids mean equal operations, and what carries the decision is one operation, at the final gate. */
  ghost predicate OneReceipt(ops: seq<Operation>, decision: ReviewDecision, at: string, parse: DateParse) {
    && (forall i, j :: 0 <= i < |ops| && 0 <= j < |ops| && ops[i].id == ops[j].id ==> ops[i] == ops[j])
    && exists i :: 0 <= i < |ops| && IsOnlyReceipt(ops, i, decision, at, parse)
  }

  ghost predicate IsOnlyReceipt(ops: seq<Operation>, i: nat, decision: ReviewDecision, at: string, parse: DateParse)
    requires i < |ops|
  {
    && Carries(ops[i], decision, at, parse) && AtFinalGate(ops[i])
    && forall j :: 0 <= j < |ops| && Carries(ops[j], decision, at, parse) ==> ops[j] == ops[i]
  }

  /** The transition EVIDENCE_REVIEW to EXPORT_READY by APPROVE, at some time. */
  predicate IsApproval(transition: Option<Transition>) {
    transition.Some? && transition == Some(Transition("EVIDENCE_REVIEW", "EXPORT_READY", "APPROVE", transition.value.at))
  }

  /** The handle is of an unused admission, issued for this state after this predecessor. */
  predicate IsAdmitted(admissions: Admissions, handle: Option<Handle>, next: SessionState, previous: SessionState) {
    && handle.Some? && handle.value in admissions
    && admissions[handle.value] == Admission(
         next.session, next.binding,
         (SourceBasis(next.session, next.binding, next.policy, next.evidence), next.decision),
         SourceBasis(previous.session, previous.binding, previous.policy, previous.evidence),
         next.transition, false)
  }

  predicate SameBasis(a: SessionState, b: SessionState) {
    && a.session == b.session && a.binding == b.binding && a.policy == b.policy
    && a.evidence == b.evidence && a.decision == b.decision
  }

  // ---- The guard's parts ----

  lemma CurrentIff(s: SessionState, parse: DateParse)
    ensures CurrentDecision(s, parse) == if DecidedInTime(s, parse) then s.decision else None
  {
  }

  lemma CarriesIff(op: Operation, decision: ReviewDecision, at: string, parse: DateParse)
    ensures Attests(op, decision, Some(at), parse) <==> Carries(op, decision, at, parse)
    ensures AttestsAtGate(op, decision, Some(at), parse) <==> Carries(op, decision, at, parse) && AtFinalGate(op)
    ensures AttestsElsewhere(op, decision, Some(at), parse) <==> Carries(op, decision, at, parse) && !AtFinalGate(op)
  {
  }

  /** Two operations under one id contradict each other. */
  ghost predicate Contradictory(ops: seq<Operation>) {
    exists i, j :: 0 <= i < |ops| && 0 <= j < |ops| && ops[i].id == ops[j].id && ops[i] != ops[j]
  }

  ghost predicate AnyCarries(ops: seq<Operation>, decision: ReviewDecision, at: string, parse: DateParse, final: bool) {
    exists i :: 0 <= i < |ops| && Carries(ops[i], decision, at, parse) && AtFinalGate(ops[i]) == final
  }

  lemma ContradictoryIff(ops: seq<Operation>)
    ensures Conflicting(ops) <==> Contradictory(ops)
  {
    if i, j :| 0 <= i < |ops| && 0 <= j < |ops| && ops[i].id == ops[j].id && ops[i] != ops[j] {
      if i < j { assert Conflicting(ops); } else { assert ops[j].id == ops[i].id && ops[j] != ops[i]; }
    }
  }

  /** What the receipts in both outboxes prove, by their fields. */
  lemma GateAnswers(ops: seq<Operation>, decision: ReviewDecision, at: string, parse: DateParse)
    ensures var gate := ReceiptGate(ops, decision, Some(at), parse);
      && (gate == EvidenceGate <==> OneReceipt(ops, decision, at, parse))
      && (Contradictory(ops) ==> gate == Ambiguous)
      && (!Contradictory(ops) ==>
            && (gate == NoGate <==>
                  !AnyCarries(ops, decision, at, parse, true) && !AnyCarries(ops, decision, at, parse, false))
            && (gate == OtherGate <==>
                  !AnyCarries(ops, decision, at, parse, true) && AnyCarries(ops, decision, at, parse, false)))
  {
    ContradictoryIff(ops);
    OneReceiptIff(ops, decision, at, parse);
    GateMeansOneReceipt(ops, decision, Some(at), parse);
    FinalReceipts(ops, decision, at, parse);
    hide Conflicting, Contradictory, OneReceipt, ExactlyOneReceipt, EvidenceReceipts, OtherGateReceipt, AnyCarries;
  }

  lemma FinalReceipts(ops: seq<Operation>, decision: ReviewDecision, at: string, parse: DateParse)
    ensures |EvidenceReceipts(ops, decision, Some(at), parse)| > 0 <==> AnyCarries(ops, decision, at, parse, true)
    ensures OtherGateReceipt(ops, decision, Some(at), parse) <==> AnyCarries(ops, decision, at, parse, false)
  {
    forall i | 0 <= i < |ops|
      ensures AttestsAtGate(ops[i], decision, Some(at), parse) <==> Carries(ops[i], decision, at, parse) && AtFinalGate(ops[i])
      ensures AttestsElsewhere(ops[i], decision, Some(at), parse) <==> Carries(ops[i], decision, at, parse) && !AtFinalGate(ops[i])
    {
      CarriesIff(ops[i], decision, at, parse);
    }
    hide AttestsAtGate, AttestsElsewhere, Carries, AtFinalGate;
    var ids := EvidenceReceipts(ops, decision, Some(at), parse);
    if i :| 0 <= i < |ops| && Carries(ops[i], decision, at, parse) && AtFinalGate(ops[i]) == true {
      assert ops[i].id in ids;
    }
    if |ids| > 0 {
      var id :| id in ids;
    }
  }

  lemma OneReceiptIff(ops: seq<Operation>, decision: ReviewDecision, at: string, parse: DateParse)
    ensures ExactlyOneReceipt(ops, decision, Some(at), parse) <==> OneReceipt(ops, decision, at, parse)
  {
    ContradictoryIff(ops);
    forall op: Operation
      ensures Attests(op, decision, Some(at), parse) <==> Carries(op, decision, at, parse)
      ensures AttestsAtGate(op, decision, Some(at), parse) <==> Carries(op, decision, at, parse) && AtFinalGate(op)
    {
      CarriesIff(op, decision, at, parse);
    }
    hide Attests, AttestsAtGate, Carries, AtFinalGate, Conflicting;
    if ExactlyOneReceipt(ops, decision, Some(at), parse) {
      var receipt :| OnlyReceipt(receipt, ops, decision, Some(at), parse);
      var i :| 0 <= i < |ops| && ops[i] == receipt;
      assert IsOnlyReceipt(ops, i, decision, at, parse);
    }
    if OneReceipt(ops, decision, at, parse) {
      var i :| 0 <= i < |ops| && IsOnlyReceipt(ops, i, decision, at, parse);
      assert OnlyReceipt(ops[i], ops, decision, Some(at), parse);
    }
  }

  // ---- The guard ----

  /**
   * What the guard answers to an entry, in this order: the wrong predecessor, the wrong
   * transition, human gates without a decision in time, a decision in time without its one
   * receipt, no admission; otherwise the admission is used up. A decision not in time asks
   * for no receipt, whatever the outboxes hold.
   */
  lemma EntryAnswers(
    previous: SessionState, next: SessionState, admissions: Admissions, handle: Option<Handle>, parse: DateParse)
    requires next.phase == "EXPORT_READY" && previous.phase != "EXPORT_READY"
    ensures var answer := Boundary(Some(previous), next, admissions, handle, parse);
      var ops := previous.outbox + next.outbox;
      if previous.phase != "EVIDENCE_REVIEW" then answer == Err(WrongPredecessor)
      else if !IsApproval(next.transition) then answer == Err(WrongTransition)
      else if next.policy.requireHumanGates && !DecidedInTime(next, parse) then answer == Err(DecisionMissing)
      else if DecidedInTime(next, parse) && !OneReceipt(ops, next.decision.value, next.transition.value.at, parse)
      then answer.Err? && answer.error.ReceiptMissing? && answer.error.gate != EvidenceGate
      else if !IsAdmitted(admissions, handle, next, previous) then answer == Err(NotAdmitted)
      else answer == Ok(admissions[handle.value := admissions[handle.value].(consumed := true)])
  {
    CurrentIff(next, parse);
    if IsApproval(next.transition) && DecidedInTime(next, parse) {
      GateAnswers(previous.outbox + next.outbox, next.decision.value, next.transition.value.at, parse);
    }
    hide ReceiptGate, OneReceipt, DecidedInTime, CurrentDecision, Contradictory, AnyCarries;
  }

  /** Without a predecessor no state enters EXPORT_READY, and any other is left alone. */
  lemma FirstWriteAnswers(next: SessionState, admissions: Admissions, handle: Option<Handle>, parse: DateParse)
    ensures Boundary(None, next, admissions, handle, parse) ==
      if next.phase == "EXPORT_READY" then Err(Bootstrap) else Ok(admissions)
  {
    hide ReceiptGate;
  }

  /** Which entries the guard accepts. */
  ghost predicate IsEntry(
    previous: SessionState, next: SessionState, admissions: Admissions, handle: Option<Handle>, parse: DateParse)
  {
    && previous.phase == "EVIDENCE_REVIEW" && IsApproval(next.transition)
    && (if DecidedInTime(next, parse)
        then OneReceipt(previous.outbox + next.outbox, next.decision.value, next.transition.value.at, parse)
        else !next.policy.requireHumanGates)
    && IsAdmitted(admissions, handle, next, previous)
  }

  /**
   * Which writes are accepted: valid ones with a frozen base, that do not start a session
   * approved, keep the basis of an approved one, enter approval as above, and never replace
   * a document that cannot be read while it is approved or of no known phase.
   */
  lemma WriteAcceptedIff(
    d: Document, candidate: Candidate, admissions: Admissions, handle: Option<Handle>, parse: DateParse)
    requires Coherent(d)
    ensures var next := candidate.state;
      Check(d, candidate, admissions, handle, parse).Ok? <==>
        && candidate.schemaValid && candidate.policyDigestMatches
        && (next.phase == "IMPLEMENTATION" ==> next.evidence.baseAuthority.Some?)
        && match d
           case Absent => next.phase != "EXPORT_READY"
           case Present(_, Some(previous)) =>
             if previous.phase == "EXPORT_READY" then SameBasis(previous, next)
             else if next.phase == "EXPORT_READY" then IsEntry(previous, next, admissions, handle, parse)
             else true
           case Present(phase, None) =>
             next.phase != "EXPORT_READY" && phase.Some? && phase.value != "EXPORT_READY" && phase.value != "unknown"
  {
    var next := candidate.state;
    match d {
      case Absent => FirstWriteAnswers(next, admissions, handle, parse);
      case Present(_, Some(previous)) =>
        if next.phase == "EXPORT_READY" && previous.phase != "EXPORT_READY" {
          EntryAnswers(previous, next, admissions, handle, parse);
        }
      case Present(_, None) =>
    }
    hide ReceiptGate, OneReceipt, DecidedInTime, CurrentDecision, IsAdmitted, Admits, CanonicalApproval, IsApproval;
  }
}
