/**
 * What Start, End and a commit answer on every readable journal, in terms of the fields
 * of the last record and of the request alone (src/adapters/governance-activation.ts,
 * src/machine/governance-activation.ts).
 */
module GovernanceAnswers {
  import opened Results
  import opened PaddedKeys
  import opened GovernanceRecords
  import opened GovernanceJournal
  import opened GovernanceProtocol

  ghost predicate Readable(s: Store, session: string, h: seq<Revision>) {
    ReadJournal(s, session) == Ok(Journal(HeadOf(session, h), h))
  }

  // ---- Start and End ----

  /**
   * Start on a scope that has records. A delegated child and an ending scope are refused
   * before the caller is asked; an active scope is answered with its record exactly for a
   * request with the same session, directory, worktree and policy; nothing is written.
   */
  lemma StartAnswers(
    s: Store, session: string, h: seq<Revision>, prepare: Prepare, authorize: Authorize, freshId: string, budget: nat)
    requires Readable(s, session, h) && h != []
    ensures var r := h[|h| - 1];
      var request := prepare(Some(r));
      var same := request.sessionId == r.sessionId && request.directory == r.directory
                  && request.worktreeRoot == r.worktreeRoot && request.policyDigest == r.policyDigest;
      var answer := StartRoot(s, session, prepare, authorize, freshId, budget);
      && (r.parentDispatch.Some? ==> answer == (s, StartBlocked(DelegatedChild)))
      && (r.parentDispatch.None? && r.status == Ending ==> answer == (s, StartBlocked(StillEnding)))
      && (r.parentDispatch.None? && r.status != Ending && request.sessionId != session ==>
            answer == (s, StartBlocked(SessionChanged)))
      && (r.parentDispatch.None? && (r.status == Active || r.status == Activating) && request.sessionId == session && !same ==>
            answer == (s, StartBlocked(BindingMismatch)))
      && (r.parentDispatch.None? && r.status == Active && same ==> answer == (s, AlreadyActive(r)))
      && (answer.1.AlreadyActive? <==> r.parentDispatch.None? && r.status == Active && same)
  {
    hide Pad16, ReadJournal, Commit;
    ActiveSession(s, session, h);
  }

  /** Start on an empty journal refuses a request for another session. */
  lemma FirstStartAnswers(s: Store, session: string, prepare: Prepare, authorize: Authorize, freshId: string, budget: nat)
    requires Readable(s, session, []) && prepare(None).sessionId != session
    ensures StartRoot(s, session, prepare, authorize, freshId, budget) == (s, StartBlocked(SessionChanged))
  {
    hide Pad16, ReadJournal, Commit;
  }

  /** End on every journal: what is at rest stays so, what is starting is refused, and so is any other binding. */
  lemma EndAnswers(
    s: Store, session: string, h: seq<Revision>, prepare: Prepare, authorize: Authorize, budget: nat)
    requires Readable(s, session, h)
    ensures var answer := EndRoot(s, session, prepare, authorize, budget);
      if h == [] then answer == (s, AlreadyInactive(None))
      else
        var r := h[|h| - 1];
        var request := prepare(Some(r));
        var same := request.sessionId == r.sessionId && request.directory == r.directory
                    && request.worktreeRoot == r.worktreeRoot && request.policyDigest == r.policyDigest;
        && (r.parentDispatch.Some? ==> answer == (s, EndBlocked(DelegatedChild)))
        && (r.parentDispatch.None? && r.status == Inactive ==> answer == (s, AlreadyInactive(Some(r))))
        && (r.parentDispatch.None? && r.status == Activating ==> answer == (s, EndBlocked(StillActivating)))
        && (r.parentDispatch.None? && (r.status == Active || r.status == Ending) && !same ==>
              answer == (s, EndBlocked(BindingMismatch)))
        && (answer.1.AlreadyInactive? <==> r.parentDispatch.None? && r.status == Inactive)
  {
    hide Pad16, ReadJournal, Commit;
    if h != [] { ActiveSession(s, session, h); }
  }

  /** A retry with the same fields, under the port's same decision, completes an interrupted Start or End. */
  lemma SameFieldsResume(
    s: Store, session: string, h: seq<Revision>, prepare: Prepare, authorize: Authorize, freshId: string, budget: nat)
    requires Readable(s, session, h) && h != [] && h[|h| - 1].parentDispatch.None? && budget >= 2
    requires var r := h[|h| - 1];
      prepare(Some(r)) == RootRequest(r.sessionId, r.directory, r.worktreeRoot, r.policyDigest)
    requires var r := h[|h| - 1];
      forall input, current :: authorize(input, current) == Ok(Decision(r.decisionId, r.source, r.actor))
    ensures var r := h[|h| - 1];
      var next := r.(revision := |h| + 1, previousDigest := Some(RecordDigest(r)));
      && (r.status == Activating ==>
            StartRoot(s, session, prepare, authorize, freshId, budget).1 == Activated(next.(status := Active), true))
      && (r.status == Ending ==>
            EndRoot(s, session, prepare, authorize, budget).1 == Ended(next.(status := Inactive), true))
  {
    hide Pad16, ReadJournal, StartRoot, EndRoot, PlanCommit, After;
    ActiveSession(s, session, h);
    if h[|h| - 1].status == Activating { ResumeStartIff(s, session, h, prepare, authorize, freshId, budget); }
    if h[|h| - 1].status == Ending { ResumeEndIff(s, session, h, prepare, authorize, budget); }
  }

  // ---- Which commits are accepted ----

  /** A decision that a root may act on. */
  predicate UsableDecision(d: Decision) {
    d.decisionId != "" && d.actor.id != "" && d.source != Delegation
  }

  /**
   * The first commit of a Start is accepted exactly when the journal is at the expected
   * revision and empty or at rest, the port decides with an identified operator, the
   * decision was never used, the activation is new and the binding is complete.
   */
  lemma StartAcceptedIff(
    s: Store, session: string, h: seq<Revision>, request: RootRequest, authorize: Authorize, freshId: string, revision: int)
    requires Readable(s, session, h) && request.sessionId == session && |h| < MAX_REVISIONS
    requires h != [] ==> h[|h| - 1].parentDispatch.None?
    ensures var input := StartInput(request, Last(h), revision, freshId);
      PlanCommit(s, input, authorize).Ok? <==>
        && revision == |h| && (h != [] ==> h[|h| - 1].status == Inactive && h[|h| - 1].activationId != freshId)
        && session != "" && request.directory != "" && request.worktreeRoot != ""
        && authorize(input, Last(h)).Ok?
        && var d := authorize(input, Last(h)).value;
        && UsableDecision(d) && forall i :: 0 <= i < |h| ==> h[i].decisionId != d.decisionId
  {
    var input := StartInput(request, Last(h), revision, freshId);
    hide Pad16, ReadJournal, PlanCommit;
    PlanUnfolds(s, h, input, authorize);
    if h != [] {
      ActiveSession(s, session, h);
      ReadIffStored(s, session, Journal(HeadOf(session, h), h));
      SmallGeneration(s, session, h);
    }
    hide Stored, ValidHistory;
  }

  lemma SmallGeneration(s: Store, session: string, h: seq<Revision>)
    requires Readable(s, session, h) && h != [] && h[|h| - 1].parentDispatch.None?
    ensures 0 < h[|h| - 1].generation <= |h| <= MAX_REVISIONS
  {
    hide Pad16, ReadJournal;
    ReadIffStored(s, session, Journal(HeadOf(session, h), h));
    RootHistoryFromLast(h);
    RootHistoryShape(h, |h| - 1);
  }

  lemma RootHistoryFromLast(h: seq<Revision>)
    requires Admissible(h) && h != []
    ensures h[0].parentDispatch.None? <==> h[|h| - 1].parentDispatch.None?
  {
    if h[0].parentDispatch.None? { RootHistoryShape(h, |h| - 1); } else { ChildHistoryShape(h, |h| - 1); }
  }

  /** The first commit of an End is accepted exactly on an active root with the same binding, under a decision never used. */
  lemma EndAcceptedIff(
    s: Store, session: string, h: seq<Revision>, request: RootRequest, authorize: Authorize, revision: int)
    requires Readable(s, session, h) && request.sessionId == session && h != []
    requires h[|h| - 1].parentDispatch.None?
    ensures var r := h[|h| - 1];
      var input := BeginEndInput(request, r, revision);
      PlanCommit(s, input, authorize).Ok? <==>
        && revision == |h| && r.status == Active
        && request.directory == r.directory && request.worktreeRoot == r.worktreeRoot
        && request.policyDigest == r.policyDigest
        && authorize(input, Some(r)).Ok?
        && var d := authorize(input, Some(r)).value;
        && UsableDecision(d) && forall i :: 0 <= i < |h| ==> h[i].decisionId != d.decisionId
  {
    var r := h[|h| - 1];
    var input := BeginEndInput(request, r, revision);
    hide Pad16, ReadJournal, PlanCommit;
    PlanUnfolds(s, h, input, authorize);
    ActiveSession(s, session, h);
    LastIsWellFormed(s, session, h);
    hide Stored, ValidHistory, IsTransition, Readable;
    if authorize(input, Some(r)).Ok? && revision == |h| {
      var d := authorize(input, Some(r)).value;
      BeginEndIff(r, Revision(
        session, session, r.activationId, r.generation, revision + 1, Ending, request.directory, request.worktreeRoot,
        request.policyDigest, d.decisionId, d.source, d.actor,
        if HeadOf(session, h).Some? then Some(HeadOf(session, h).value.digest) else None, None));
    }
  }

  lemma LastIsWellFormed(s: Store, session: string, h: seq<Revision>)
    requires Readable(s, session, h) && h != []
    ensures WellFormed(h[|h| - 1])
  {
    hide Pad16, ReadJournal;
    ReadIffStored(s, session, Journal(HeadOf(session, h), h));
  }

  /** What may begin an end, as a transition. */
  lemma BeginEndIff(r: Revision, next: Revision)
    requires r.parentDispatch.None? && next.parentDispatch.None? && next.status == Ending
    requires next.sessionId == r.sessionId && next.rootSessionId == r.rootSessionId && next.revision == r.revision + 1
    requires next.generation == r.generation && next.activationId == r.activationId
    ensures IsTransition(Some(r), next) <==>
      && r.status == Active && next.source != Delegation && next.decisionId != r.decisionId
      && next.directory == r.directory && next.worktreeRoot == r.worktreeRoot && next.policyDigest == r.policyDigest
  {
  }

  /** A child session is first enrolled exactly under a dispatch of another session, for another root, by delegation. */
  lemma ChildEnrolledIff(s: Store, input: CommitInput, authorize: Authorize)
    requires Readable(s, input.sessionId, []) && input.action == Enroll && input.parentDispatch.Some?
    ensures PlanCommit(s, input, authorize).Ok? <==>
      && input.expectedRevision == 0
      && input.sessionId != "" && input.rootSessionId != "" && input.rootSessionId != input.sessionId
      && input.parentDispatch.value.sessionId != input.sessionId
      && 0 < input.generation <= MAX_SAFE_INTEGER && input.directory != "" && input.worktreeRoot != ""
      && authorize(input, None).Ok?
      && var d := authorize(input, None).value; d.decisionId != "" && d.actor.id != "" && d.source == Delegation
  {
    hide Pad16, ReadJournal, PlanCommit;
    PlanUnfolds(s, [], input, authorize);
    hide Stored, ValidHistory;
  }

  /**
   * A child session is enrolled again exactly under its own activation, binding and
   * decision, by another call or message of the same parent.
   */
  lemma ChildEnrolledAgainIff(s: Store, h: seq<Revision>, input: CommitInput, authorize: Authorize)
    requires Readable(s, input.sessionId, h) && h != [] && |h| < MAX_REVISIONS && input.action == Enroll
    requires h[|h| - 1].parentDispatch.Some?
    ensures var r := h[|h| - 1];
      PlanCommit(s, input, authorize).Ok? <==>
        && input.expectedRevision == |h|
        && input.generation == r.generation && input.activationId == r.activationId
        && input.rootSessionId == r.rootSessionId && input.directory == r.directory
        && input.worktreeRoot == r.worktreeRoot && input.policyDigest == r.policyDigest
        && input.parentDispatch.Some?
        && input.parentDispatch.value.sessionId == r.parentDispatch.value.sessionId
        && (input.parentDispatch.value.messageId, input.parentDispatch.value.callId)
           != (r.parentDispatch.value.messageId, r.parentDispatch.value.callId)
        && authorize(input, Some(r)) == Ok(Decision(r.decisionId, r.source, r.actor))
  {
    hide Pad16, ReadJournal, PlanCommit;
    PlanUnfolds(s, h, input, authorize);
    ReadIffStored(s, input.sessionId, Journal(HeadOf(input.sessionId, h), h));
    RootHistoryFromLast(h);
    ChildHistoryShape(h, |h| - 1);
    assert WellFormed(h[|h| - 1]);
    hide Stored, ValidHistory;
  }

  // ---- The enrollment marker ----

  /** A journal with records is read only under a marker for its session and its first activation. */
  lemma MarkerPins(s: Store, session: string, h: seq<Revision>)
    requires Readable(s, session, h) && h != []
    ensures Get(s, EnrollmentKey(session)) == Some(EnrollmentValue(Enrollment(session, h[0].activationId)))
  {
    hide Pad16, ReadJournal;
    ReadIffStored(s, session, Journal(HeadOf(session, h), h));
  }

  /** Any other marker, or none, blocks the session; with that one put back it is read again. */
  lemma MarkerIsNeeded(s: Store, session: string, h: seq<Revision>, marker: Option<Value>)
    requires Readable(s, session, h) && h != []
    ensures var key := EnrollmentKey(session);
      var t := if marker.Some? then s[key := marker.value] else s - {key};
      Readable(t, session, h) <==> marker == Some(EnrollmentValue(Enrollment(session, h[0].activationId)))
  {
    hide Pad16, ReadJournal;
    var key := EnrollmentKey(session);
    var t := if marker.Some? then s[key := marker.value] else s - {key};
    MarkerPins(s, session, h);
    ReadIffStored(s, session, Journal(HeadOf(session, h), h));
    ReadIffStored(t, session, Journal(HeadOf(session, h), h));
    if marker == Some(EnrollmentValue(Enrollment(session, h[0].activationId))) {
      assert t == s;
    } else if Readable(t, session, h) {
      MarkerPins(t, session, h);
    }
  }

  // ---- The head ----

  /** Some revision of the session is stored. */
  ghost predicate AnyRevision(s: Store, session: string) {
    exists suffix :: RevisionKey(session, suffix) in s
  }

  /**
   * What the head alone decides: without one a session is empty, or blocked if anything of
   * it is stored; a head that is none, or another session's, blocks it, and so does a
   * revision after the one the head names.
   */
  lemma HeadAnswers(s: Store, session: string)
    ensures HeadKey(session) !in s ==>
      ReadJournal(s, session) ==
        if EnrollmentKey(session) in s || AnyRevision(s, session) then Err(MissingHead) else Ok(Journal(None, []))
    ensures HeadKey(session) in s ==>
      var raw := s[HeadKey(session)];
      var proper := raw.HeadValue? && session != "" && raw.head.sessionId == session
                    && 1 <= raw.head.revision <= 9007199254740991;
      && (!proper <==> ReadJournal(s, session) == Err(ForeignHead))
      && (proper && RevisionKey(session, Pad16(raw.head.revision + 1)) in s && raw.head.revision < 1000000000000000 ==>
            ReadJournal(s, session) == Err(PendingTransition))
  {
    hide Pad16, LexLess, ReadHistory, FirstFault, IsEnrollmentBound;
    if suffix :| RevisionKey(session, suffix) in s {
      assert ScanFinds(s, session, None);
    }
    if HeadKey(session) in s && s[HeadKey(session)].HeadValue? {
      var head := s[HeadKey(session)].head;
      var n := head.revision;
      if n >= 0 {
        WalkFaults(s, session, n, Some(head.digest), 0);
        var walk := ReadHistory(s, session, n, Some(head.digest), 0);
        if walk.Ok? { FaultKinds(walk.value, |walk.value|); }
      }
      if 1 <= n < 1000000000000000 && RevisionKey(session, Pad16(n + 1)) in s { ScanExtends(s, session, n); }
    }
  }

  lemma {:induction false} FaultKinds(h: seq<Revision>, n: nat)
    requires n <= |h|
    ensures FirstFault(h, n) in {None, Some(InvalidTransition), Some(ReplayedDecision)}
  {
    hide IsTransition;
    if n > 0 { FaultKinds(h, n - 1); }
  }

  lemma {:induction false} WalkFaults(s: Store, session: string, revision: nat, expected: Option<Digest>, count: nat)
    ensures ReadHistory(s, session, revision, expected, count).Err? ==>
      ReadHistory(s, session, revision, expected, count).error in {BoundExceeded, CorruptJournal}
  {
    hide Pad16;
    if revision > 0 && count < MAX_REVISIONS {
      var item := ReadRecord(Get(s, RevKey(session, revision)), session, revision, expected);
      if item.Ok? { WalkFaults(s, session, revision - 1, item.value.previousDigest, count + 1); }
    }
  }
}
