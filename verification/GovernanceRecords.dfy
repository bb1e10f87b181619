/**
 * Activation revisions and the opt-in lifecycle topology that decides which
 * revision may follow which (src/machine/governance-activation.ts).
 *
 * A digest is a free constructor over the whole record, so equal digests mean
 * equal records, and a record's previousDigest holds its whole past.
 */
module GovernanceRecords {
  import opened Results

  datatype Status = Activating | Active | Ending | Inactive
  datatype Source = HostCommand | Autonomous | Delegation
  datatype ActorSource = Env | Git | Claim | Oidc | Unknown

  datatype Actor = Actor(
    id: string,
    email: Option<string>,
    displayName: Option<string>,
    origin: ActorSource,
    assurance: string)

  datatype Dispatch = Dispatch(sessionId: string, messageId: string, callId: string)

  /** A digest string: the hash of a record, or any other 64 hex digits. */
  datatype Digest = RecordDigest(record: Revision) | OtherDigest(text: string)

  datatype Revision = Revision(
    sessionId: string,
    rootSessionId: string,
    activationId: string,
    generation: int,
    revision: int,
    status: Status,
    directory: string,
    worktreeRoot: string,
    policyDigest: string,
    decisionId: string,
    source: Source,
    actor: Actor,
    previousDigest: Option<Digest>,
    parentDispatch: Option<Dispatch>)

  /** The part of the revision schema that is not carried by the types. */
  predicate WellFormed(r: Revision) {
    && r.sessionId != "" && r.rootSessionId != ""
    && 0 < r.generation <= MAX_SAFE_INTEGER && 0 < r.revision <= MAX_SAFE_INTEGER
    && r.directory != "" && r.worktreeRoot != ""
    && r.decisionId != "" && r.actor.id != ""
  }

  const MAX_SAFE_INTEGER := 9007199254740991

  predicate IsTransition(previous: Option<Revision>, next: Revision) {
    && HasCoherentSource(next)
    && (match previous
        case None => IsInitialEnrollment(next)
        case Some(prev) =>
          && (next.decisionId == prev.decisionId ==> SameDecision(prev, next))
          && (if prev.parentDispatch.Some? then IsDelegationContinuation(prev, next)
              else
                && IsNextRootRevision(prev, next)
                && (if prev.status == Inactive then IsReactivation(prev, next)
                    else SameActivation(prev, next) && IsRootLifecycleStep(prev, next))))
  }

  predicate IsRootLifecycleStep(prev: Revision, next: Revision) {
    match prev.status
    case Inactive => false
    case Activating => next.status == Active && next.decisionId == prev.decisionId
    case Active => next.status == Ending && next.decisionId != prev.decisionId
    case Ending => next.status == Inactive && next.decisionId == prev.decisionId
  }

  predicate HasCoherentSource(next: Revision) {
    next.parentDispatch.Some? <==> next.source == Delegation
  }

  predicate SameDecision(prev: Revision, next: Revision) {
    next.source == prev.source && next.actor == prev.actor
  }

  predicate IsDelegationContinuation(prev: Revision, next: Revision) {
    && SameActivation(prev, next)
    && prev.parentDispatch.Some? && next.parentDispatch.Some?
    && prev.status == Active && next.status == Active
    && prev.sessionId == next.sessionId
    && next.revision == prev.revision + 1
    && prev.parentDispatch.value.sessionId == next.parentDispatch.value.sessionId
    && (|| prev.parentDispatch.value.messageId != next.parentDispatch.value.messageId
        || prev.parentDispatch.value.callId != next.parentDispatch.value.callId)
    && prev.decisionId == next.decisionId
  }

  predicate IsNextRootRevision(prev: Revision, next: Revision) {
    && prev.sessionId == next.sessionId
    && next.revision == prev.revision + 1
    && prev.parentDispatch.None?
    && next.parentDispatch.None?
  }

  predicate IsInitialEnrollment(next: Revision) {
    && next.revision == 1 && next.previousDigest.None?
    && (match next.parentDispatch
        case Some(dispatch) =>
          && next.status == Active
          && next.sessionId != next.rootSessionId
          && dispatch.sessionId != next.sessionId
        case None =>
          && next.sessionId == next.rootSessionId
          && next.status == Activating
          && next.generation == 1)
  }

  predicate IsReactivation(prev: Revision, next: Revision) {
    && next.status == Activating
    && next.generation == prev.generation + 1
    && next.activationId != prev.activationId
    && next.rootSessionId == next.sessionId
  }

  predicate SameActivation(prev: Revision, next: Revision) {
    && next.generation == prev.generation
    && next.activationId == prev.activationId
    && next.rootSessionId == prev.rootSessionId
    && next.directory == prev.directory
    && next.worktreeRoot == prev.worktreeRoot
    && next.policyDigest == prev.policyDigest
  }

  datatype Action = Start | Activate | BeginEnd | End | Enroll

  function Target(action: Action): Status {
    match action
    case Start => Activating
    case Activate => Active
    case BeginEnd => Ending
    case End => Inactive
    case Enroll => Active
  }

  // ---- Whole histories ----

  /** The revision a history holds just before position i. */
  function Before(h: seq<Revision>, i: nat): Option<Revision>
    requires i <= |h|
  {
    if i == 0 then None else Some(h[i - 1])
  }

  ghost predicate Admissible(h: seq<Revision>) {
    forall i {:trigger Before(h, i)} :: 0 <= i < |h| ==> IsTransition(Before(h, i), h[i])
  }

  /** Revisions that consume a fresh decision. */
  predicate Opens(r: Revision) {
    r.status == Activating || r.status == Ending
  }

  ghost predicate NoReplay(h: seq<Revision>) {
    forall i, j :: 0 <= i < j < |h| && Opens(h[i]) && Opens(h[j]) ==> h[i].decisionId != h[j].decisionId
  }

  /** A root scope cycles activating, active, ending, inactive; generations count the cycles. */
  function CycleStatus(i: nat): Status {
    if i % 4 == 0 then Activating else if i % 4 == 1 then Active
    else if i % 4 == 2 then Ending else Inactive
  }

  /**
   * Every admissible root history is the fixed status cycle: revision i+1 has the
   * i-th status and generation i/4+1, Start and End decisions span exactly their
   * two revisions, and one cycle keeps one activation and one binding.
   */
  lemma {:induction false} RootHistoryShape(h: seq<Revision>, i: nat)
    requires Admissible(h) && i < |h| && h[0].parentDispatch.None?
    ensures h[i].revision == i + 1
    ensures h[i].sessionId == h[0].sessionId == h[i].rootSessionId
    ensures h[i].parentDispatch.None?
    ensures h[i].status == CycleStatus(i)
    ensures h[i].generation == i / 4 + 1
    ensures i % 2 == 1 ==> h[i].decisionId == h[i - 1].decisionId && SameDecision(h[i - 1], h[i])
    ensures i % 4 != 0 ==> SameActivation(h[i - 1], h[i])
  {
    assert IsTransition(Before(h, i), h[i]);
    if i > 0 {
      RootHistoryShape(h, i - 1);
    }
  }

  /** Delegated children never leave Active and never change their decision. */
  lemma {:induction false} ChildHistoryShape(h: seq<Revision>, i: nat)
    requires Admissible(h) && i < |h| && h[0].parentDispatch.Some?
    ensures h[i].revision == i + 1
    ensures h[i].sessionId == h[0].sessionId != h[i].rootSessionId
    ensures h[i].parentDispatch.Some? && h[i].source == Delegation
    ensures h[i].parentDispatch.value.sessionId == h[0].parentDispatch.value.sessionId
    ensures h[i].status == Active && h[i].decisionId == h[0].decisionId
    ensures i > 0 ==> SameActivation(h[0], h[i])
  {
    assert IsTransition(Before(h, i), h[i]);
    if i > 0 {
      ChildHistoryShape(h, i - 1);
    }
  }
}
