/**
 * Start and End of a root scope: two commits each, under one session lock, that a
 * later call resumes after an interruption (src/adapters/governance-activation.ts).
 *
 * `budget` is the number of store writes that take effect before a crash or a
 * failing store stops the call; a large budget is an undisturbed call.
 */
module GovernanceProtocol {
  import opened Results
  import opened PaddedKeys
  import opened GovernanceRecords
  import opened GovernanceJournal

  datatype RootRequest = RootRequest(
    sessionId: string, directory: string, worktreeRoot: string, policyDigest: string)

  type Prepare = Option<Revision> -> RootRequest

  predicate RootBindingMatches(current: Revision, request: RootRequest) {
    && current.sessionId == request.sessionId
    && current.directory == request.directory
    && current.worktreeRoot == request.worktreeRoot
    && current.policyDigest == request.policyDigest
  }

  /** The request that continues a pending revision under its own scope. */
  function Continuation(pending: Revision, action: Action, expectedRevision: int): CommitInput {
    CommitInput(action, expectedRevision, pending.sessionId, pending.rootSessionId, pending.activationId,
                pending.generation, pending.directory, pending.worktreeRoot, pending.policyDigest,
                pending.parentDispatch)
  }

  // ---- Start ----

  datatype StartResult =
    | Activated(record: Revision, resumed: bool)
    | AlreadyActive(record: Revision)
    | StartBlocked(reason: Blocked)
    | StartInterrupted

  /** Start outcomes that need no write. */
  function SettledStart(current: Option<Revision>): Option<StartResult> {
    if current.None? then None
    else if current.value.parentDispatch.Some? then Some(StartBlocked(DelegatedChild))
    else if current.value.status == Active then Some(AlreadyActive(current.value))
    else if current.value.status == Ending then Some(StartBlocked(StillEnding))
    else None
  }

  function CompleteStart(
    s: Store, authorize: Authorize, pending: Revision, request: RootRequest, revision: int, resumed: bool, budget: nat)
    : (Store, StartResult)
  {
    if !RootBindingMatches(pending, request) then (s, StartBlocked(BindingMismatch))
    else
      var (t, outcome, _) := Commit(s, Continuation(pending, Activate, revision), authorize, budget);
      (t, match outcome
          case Committed(record) => Activated(record, resumed)
          case Refused(reason) => StartBlocked(reason)
          case Interrupted => StartInterrupted)
  }

  function StartInput(request: RootRequest, current: Option<Revision>, revision: int, freshId: string): CommitInput {
    CommitInput(Start, revision, request.sessionId, request.sessionId, freshId,
                (if current.Some? then current.value.generation else 0) + 1,
                request.directory, request.worktreeRoot, request.policyDigest, None)
  }

  function CommitPreparedStart(
    s: Store, authorize: Authorize, current: Option<Revision>, revision: int, request: RootRequest,
    freshId: string, budget: nat)
    : (Store, StartResult)
  {
    if current.Some? && current.value.status == Activating
    then CompleteStart(s, authorize, current.value, request, revision, true, budget)
    else
      var (t, outcome, left) := Commit(s, StartInput(request, current, revision, freshId), authorize, budget);
      match outcome
      case Refused(reason) => (t, StartBlocked(reason))
      case Interrupted => (t, StartInterrupted)
      case Committed(record) => CompleteStart(t, authorize, record, request, record.revision, false, left)
  }

  function StartRoot(
    s: Store, session: string, prepare: Prepare, authorize: Authorize, freshId: string, budget: nat)
    : (Store, StartResult)
  {
    match ReadJournal(s, session)
    case Err(reason) => (s, StartBlocked(reason))
    case Ok(journal) =>
      var current := Last(journal.history);
      var settled := SettledStart(current);
      if settled.Some? && settled.value.StartBlocked? then (s, settled.value)
      else
        var request := prepare(current);
        if request.sessionId != session then (s, StartBlocked(SessionChanged))
        else if current.Some? && current.value.status == Active && !RootBindingMatches(current.value, request)
        then (s, StartBlocked(BindingMismatch))
        else if settled.Some? then (s, settled.value)
        else CommitPreparedStart(s, authorize, current, HeadRevision(journal), request, freshId, budget)
  }

  // ---- End ----

  datatype EndResult =
    | Ended(record: Revision, resumed: bool)
    | AlreadyInactive(last: Option<Revision>)
    | EndBlocked(reason: Blocked)
    | EndInterrupted

  function SettledEnd(current: Option<Revision>): Option<EndResult> {
    if current.None? then Some(AlreadyInactive(None))
    else if current.value.parentDispatch.Some? then Some(EndBlocked(DelegatedChild))
    else if current.value.status == Inactive then Some(AlreadyInactive(current))
    else if current.value.status == Activating then Some(EndBlocked(StillActivating))
    else None
  }

  function CompleteEnd(
    s: Store, authorize: Authorize, pending: Revision, request: RootRequest, revision: int, resumed: bool, budget: nat)
    : (Store, EndResult)
  {
    if !RootBindingMatches(pending, request) then (s, EndBlocked(BindingMismatch))
    else
      var (t, outcome, _) := Commit(s, Continuation(pending, End, revision), authorize, budget);
      (t, match outcome
          case Committed(record) => Ended(record, resumed)
          case Refused(reason) => EndBlocked(reason)
          case Interrupted => EndInterrupted)
  }

  function BeginEndInput(request: RootRequest, current: Revision, revision: int): CommitInput {
    CommitInput(BeginEnd, revision, request.sessionId, request.sessionId, current.activationId,
                current.generation, request.directory, request.worktreeRoot, request.policyDigest, None)
  }

  function EndRoot(
    s: Store, session: string, prepare: Prepare, authorize: Authorize, budget: nat)
    : (Store, EndResult)
  {
    match ReadJournal(s, session)
    case Err(reason) => (s, EndBlocked(reason))
    case Ok(journal) =>
      var current := Last(journal.history);
      var settled := SettledEnd(current);
      if settled.Some? then (s, settled.value)
      else
        var request := prepare(current);
        if request.sessionId != session || !RootBindingMatches(current.value, request)
        then (s, EndBlocked(BindingMismatch))
        else if current.value.status == Ending
        then CompleteEnd(s, authorize, current.value, request, current.value.revision, true, budget)
        else
          var (t, outcome, left) :=
            Commit(s, BeginEndInput(request, current.value, HeadRevision(journal)), authorize, budget);
          match outcome
          case Refused(reason) => (t, EndBlocked(reason))
          case Interrupted => (t, EndInterrupted)
          case Committed(record) => CompleteEnd(t, authorize, record, request, record.revision, false, left)
  }

  // ---- Resuming ----

  /** The revision that completes a pending one. */
  function Completed(pending: Revision, status: Status): Revision {
    pending.(revision := pending.revision + 1, status := status,
             previousDigest := Some(RecordDigest(pending)))
  }

  /** The pending decision, as the port must return it again. */
  function PendingDecision(pending: Revision): Decision {
    Decision(pending.decisionId, pending.source, pending.actor)
  }

  predicate Completes(pending: Revision, action: Action) {
    && pending.parentDispatch.None?
    && (|| (pending.status == Activating && action == Activate)
        || (pending.status == Ending && action == End))
  }

  /** A pending revision is completed exactly when the port returns its own decision. */
  lemma PlanCompletion(s: Store, session: string, h: seq<Revision>, action: Action, authorize: Authorize)
    requires h != [] && Completes(h[|h| - 1], action)
    requires ReadJournal(s, session) == Ok(Journal(HeadOf(session, h), h))
    ensures var pending := h[|h| - 1];
      var input := Continuation(pending, action, pending.revision);
      && pending.sessionId == session && pending.revision == |h| && WriteCount(Completed(pending, Target(action))) == 2
      && (PlanCommit(s, input, authorize).Ok? <==>
            authorize(input, Some(pending)) == Ok(PendingDecision(pending)))
      && (PlanCommit(s, input, authorize).Ok? ==>
            PlanCommit(s, input, authorize) == Ok(Completed(pending, Target(action))))
  {
    hide Pad16, ReadJournal, PlanCommit;
    var pending := h[|h| - 1];
    ReadIffStored(s, session, Journal(HeadOf(session, h), h));
    assert IsTransition(Before(h, |h| - 1), pending);
    assert WellFormed(pending) && pending.sessionId == session && pending.revision == |h|;
    PlanUnfolds(s, h, Continuation(pending, action, pending.revision), authorize);
  }

  /**
   * An interrupted Start is completed exactly when the binding is unchanged and the
   * port returns the pending decision with its channel and actor; then the same
   * activation and generation become active. Any other retry writes nothing.
   */
  lemma ResumeStartIff(
    s: Store, session: string, h: seq<Revision>, prepare: Prepare, authorize: Authorize, freshId: string, budget: nat)
    requires h != [] && Completes(h[|h| - 1], Activate)
    requires ReadJournal(s, session) == Ok(Journal(HeadOf(session, h), h))
    requires budget >= 2
    ensures var pending := h[|h| - 1];
      var (t, result) := StartRoot(s, session, prepare, authorize, freshId, budget);
      var resumes :=
        && prepare(Some(pending)).sessionId == session
        && RootBindingMatches(pending, prepare(Some(pending)))
        && authorize(Continuation(pending, Activate, pending.revision), Some(pending)) == Ok(PendingDecision(pending));
      && (resumes <==> result.Activated?)
      && (resumes ==> (t, result) == (After(s, Completed(pending, Active), 2), Activated(Completed(pending, Active), true)))
      && (!resumes ==> result.StartBlocked? && t == s)
  {
    hide Pad16, ReadJournal, PlanCommit, After;
    PlanCompletion(s, session, h, Activate, authorize);
  }

  lemma ResumeEndIff(
    s: Store, session: string, h: seq<Revision>, prepare: Prepare, authorize: Authorize, budget: nat)
    requires h != [] && Completes(h[|h| - 1], End)
    requires ReadJournal(s, session) == Ok(Journal(HeadOf(session, h), h))
    requires budget >= 2
    ensures var pending := h[|h| - 1];
      var (t, result) := EndRoot(s, session, prepare, authorize, budget);
      var resumes :=
        && RootBindingMatches(pending, prepare(Some(pending)))
        && authorize(Continuation(pending, End, pending.revision), Some(pending)) == Ok(PendingDecision(pending));
      && (resumes <==> result.Ended?)
      && (resumes ==> (t, result) == (After(s, Completed(pending, Inactive), 2), Ended(Completed(pending, Inactive), true)))
      && (!resumes ==> result.EndBlocked? && t == s)
  {
    hide Pad16, ReadJournal, PlanCommit, After;
    PlanCompletion(s, session, h, End, authorize);
  }

  /** A repeated Start on an active scope writes nothing, and neither does End on a settled one. */
  lemma RepeatsWriteNothing(
    s: Store, session: string, h: seq<Revision>, prepare: Prepare, authorize: Authorize, freshId: string, budget: nat)
    requires ReadJournal(s, session) == Ok(Journal(HeadOf(session, h), h))
    ensures Last(h).Some? && Last(h).value.parentDispatch.None? && Last(h).value.status == Active ==>
      StartRoot(s, session, prepare, authorize, freshId, budget) ==
        (s, if prepare(Last(h)).sessionId != session then StartBlocked(SessionChanged)
            else if RootBindingMatches(Last(h).value, prepare(Last(h))) then AlreadyActive(Last(h).value)
            else StartBlocked(BindingMismatch))
    ensures Last(h).Some? && Last(h).value.parentDispatch.None? && Last(h).value.status == Inactive ==>
      EndRoot(s, session, prepare, authorize, budget) == (s, AlreadyInactive(Last(h)))
    ensures Last(h).Some? && Last(h).value.parentDispatch.Some? ==>
      StartRoot(s, session, prepare, authorize, freshId, budget) == (s, StartBlocked(DelegatedChild))
      && EndRoot(s, session, prepare, authorize, budget) == (s, EndBlocked(DelegatedChild))
  {
    hide ReadJournal, Commit;
  }

  /** A journal no reader accepts is never written again by Start or End. */
  lemma BlockedJournalRefuses(
    s: Store, session: string, prepare: Prepare, authorize: Authorize, freshId: string, budget: nat)
    requires ReadJournal(s, session).Err?
    ensures StartRoot(s, session, prepare, authorize, freshId, budget)
         == (s, StartBlocked(ReadJournal(s, session).error))
    ensures EndRoot(s, session, prepare, authorize, budget)
         == (s, EndBlocked(ReadJournal(s, session).error))
  {
    hide ReadJournal;
  }

  /** Start may open a new activation: nothing is stored, or a root scope is inactive. */
  predicate Startable(current: Option<Revision>) {
    current.Some? ==> current.value.parentDispatch.None? && current.value.status == Inactive
  }

  /** The port answers the same decision to both commits of a Start or End. */
  ghost predicate StandsBy(authorize: Authorize, pending: Revision, action: Action) {
    authorize(Continuation(pending, action, pending.revision), Some(pending)) == Ok(PendingDecision(pending))
  }

  /**
   * Start from an inactive scope, cut off anywhere. The journal afterwards is the
   * old one, blocked, the old one plus ACTIVATING, or the old one plus ACTIVATING
   * and ACTIVE, according to how many writes took effect; a call that stopped
   * between the two commits, retried, ends in the very store of an undisturbed call.
   */
  lemma StartCutAndResumed(
    s: Store, session: string, h: seq<Revision>, prepare: Prepare, authorize: Authorize,
    freshId: string, retryId: string, budget: nat)
    requires ReadJournal(s, session) == Ok(Journal(HeadOf(session, h), h)) && Startable(Last(h))
    requires prepare(Last(h)).sessionId == session
    requires |h| + 2 <= MAX_REVISIONS
    requires var input := StartInput(prepare(Last(h)), Last(h), |h|, freshId);
      && PlanCommit(s, input, authorize).Ok?
      && var r1 := PlanCommit(s, input, authorize).value;
      && StandsBy(authorize, r1, Activate)
      && prepare(Some(r1)) == prepare(Last(h))
    ensures var r1 := PlanCommit(s, StartInput(prepare(Last(h)), Last(h), |h|, freshId), authorize).value;
      var r2 := Completed(r1, Active);
      var n := WriteCount(r1);
      var (t, result) := StartRoot(s, session, prepare, authorize, freshId, budget);
      && r1.status == Activating && r1.activationId == freshId
      && r1.generation == (if h == [] then 1 else h[|h| - 1].generation + 1)
      && (budget == 0 ==> t == s && result == StartInterrupted)
      && (0 < budget < n || budget == n + 1 ==> ReadJournal(t, session).Err? && result == StartInterrupted)
      && (budget == n ==>
            && ReadJournal(t, session) == Ok(Journal(HeadOf(session, h + [r1]), h + [r1]))
            && result == StartInterrupted
            && StartRoot(t, session, prepare, authorize, retryId, 2)
               == (StartRoot(s, session, prepare, authorize, freshId, n + 2).0, Activated(r2, true)))
      && (budget >= n + 2 ==>
            && ReadJournal(t, session) == Ok(Journal(HeadOf(session, h + [r1] + [r2]), h + [r1] + [r2]))
            && result == Activated(r2, false))
  {
    hide Pad16, ReadJournal, PlanCommit, After, IsTransition, WellFormed, Stored, ValidHistory;
    var input := StartInput(prepare(Last(h)), Last(h), |h|, freshId);
    var r1 := PlanCommit(s, input, authorize).value;
    var n, h1 := WriteCount(r1), h + [r1];
    var _ := PlannedRecord(s, input, authorize);
    var mid := After(s, r1, n);
    CommitIsAtomic(s, input, authorize, if budget < n then budget else n);
    CommitIsAtomic(s, input, authorize, n);
    PlanCompletion(mid, session, h1, Activate, authorize);
    var again := Continuation(r1, Activate, r1.revision);
    CommitIsAtomic(mid, again, authorize, if n <= budget < n + 2 then budget - n else 2);
    ResumeStartIff(mid, session, h1, prepare, authorize, retryId, 2);
  }

  /** The same for End: ACTIVE, then ENDING, then INACTIVE under one new decision. */
  lemma EndCutAndResumed(
    s: Store, session: string, h: seq<Revision>, prepare: Prepare, authorize: Authorize, budget: nat)
    requires h != [] && h[|h| - 1].status == Active && h[|h| - 1].parentDispatch.None?
    requires ReadJournal(s, session) == Ok(Journal(HeadOf(session, h), h))
    requires RootBindingMatches(h[|h| - 1], prepare(Last(h)))
    requires |h| + 2 <= MAX_REVISIONS
    requires var input := BeginEndInput(prepare(Last(h)), h[|h| - 1], |h|);
      && PlanCommit(s, input, authorize).Ok?
      && var r1 := PlanCommit(s, input, authorize).value;
      && StandsBy(authorize, r1, End)
      && prepare(Some(r1)) == prepare(Last(h))
    ensures var r1 := PlanCommit(s, BeginEndInput(prepare(Last(h)), h[|h| - 1], |h|), authorize).value;
      var r2 := Completed(r1, Inactive);
      var (t, result) := EndRoot(s, session, prepare, authorize, budget);
      && r1.status == Ending && SameActivation(h[|h| - 1], r1)
      && (budget == 0 ==> t == s && result == EndInterrupted)
      && (budget == 1 || budget == 3 ==> ReadJournal(t, session).Err? && result == EndInterrupted)
      && (budget == 2 ==>
            && ReadJournal(t, session) == Ok(Journal(HeadOf(session, h + [r1]), h + [r1]))
            && result == EndInterrupted
            && EndRoot(t, session, prepare, authorize, 2)
               == (EndRoot(s, session, prepare, authorize, 4).0, Ended(r2, true)))
      && (budget >= 4 ==>
            && ReadJournal(t, session) == Ok(Journal(HeadOf(session, h + [r1] + [r2]), h + [r1] + [r2]))
            && result == Ended(r2, false))
  {
    hide Pad16, ReadJournal, PlanCommit, After, IsTransition, WellFormed, Stored, ValidHistory;
    var input := BeginEndInput(prepare(Last(h)), h[|h| - 1], |h|);
    ActiveSession(s, session, h);
    var r1 := PlanCommit(s, input, authorize).value;
    var h1 := h + [r1];
    var _ := PlannedRecord(s, input, authorize);
    var mid := After(s, r1, 2);
    CommitIsAtomic(s, input, authorize, if budget < 2 then budget else 2);
    CommitIsAtomic(s, input, authorize, 2);
    PlanCompletion(mid, session, h1, End, authorize);
    var again := Continuation(r1, End, r1.revision);
    CommitIsAtomic(mid, again, authorize, if 2 <= budget < 4 then budget - 2 else 2);
    ResumeEndIff(mid, session, h1, prepare, authorize, 2);
  }

  /** A Start that ran to its end, called again with any identifier and port, answers with the same record and writes nothing. */
  lemma StartTwice(
    s: Store, session: string, h: seq<Revision>, prepare: Prepare, authorize: Authorize, freshId: string, budget: nat,
    other: Authorize, otherId: string, otherBudget: nat)
    requires ReadJournal(s, session) == Ok(Journal(HeadOf(session, h), h)) && Startable(Last(h))
    requires prepare(Last(h)).sessionId == session
    requires |h| + 2 <= MAX_REVISIONS
    requires var input := StartInput(prepare(Last(h)), Last(h), |h|, freshId);
      && PlanCommit(s, input, authorize).Ok?
      && var r1 := PlanCommit(s, input, authorize).value;
      && StandsBy(authorize, r1, Activate)
      && prepare(Some(r1)) == prepare(Last(h)) && prepare(Some(Completed(r1, Active))) == prepare(Last(h))
      && budget >= WriteCount(r1) + 2
    ensures var (t, result) := StartRoot(s, session, prepare, authorize, freshId, budget);
      && result.Activated?
      && StartRoot(t, session, prepare, other, otherId, otherBudget) == (t, AlreadyActive(result.record))
  {
    hide Pad16, ReadJournal, PlanCommit, After, IsTransition, WellFormed, Stored, ValidHistory, StartRoot;
    StartCutAndResumed(s, session, h, prepare, authorize, freshId, freshId, budget);
    var input := StartInput(prepare(Last(h)), Last(h), |h|, freshId);
    var r1 := PlanCommit(s, input, authorize).value;
    var t := StartRoot(s, session, prepare, authorize, freshId, budget).0;
    var done := h + [r1] + [Completed(r1, Active)];
    var _ := PlannedRecord(s, input, authorize);
    assert Last(done) == Some(Completed(r1, Active));
    RepeatsWriteNothing(t, session, done, prepare, other, otherId, otherBudget);
  }

  lemma ActiveSession(s: Store, session: string, h: seq<Revision>)
    requires h != []
    requires ReadJournal(s, session) == Ok(Journal(HeadOf(session, h), h))
    ensures h[|h| - 1].sessionId == session && h[|h| - 1].revision == |h|
    ensures h[|h| - 1].parentDispatch.None? ==> h[|h| - 1].rootSessionId == session
  {
    hide Pad16;
    ReadIffStored(s, session, Journal(HeadOf(session, h), h));
    if h[0].parentDispatch.None? {
      RootHistoryShape(h, |h| - 1);
    } else {
      ChildHistoryShape(h, |h| - 1);
    }
  }
}
