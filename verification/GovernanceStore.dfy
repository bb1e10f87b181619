/**
 * The activation journal as the program runs it: loops over a mutable store, one
 * write after another, each proved equal to the functions that specify it.
 */
module GovernanceStore {
  import opened Results
  import opened PaddedKeys
  import opened GovernanceRecords
  import J = GovernanceJournal
  import P = GovernanceProtocol

  /** validateHistory: one pass with the previous record and the decisions seen. */
  method ValidateHistory(history: seq<Revision>) returns (fault: Option<J.Blocked>)
    ensures fault == J.FirstFault(history, |history|)
    ensures fault.None? <==> Admissible(history) && NoReplay(history)
  {
    hide IsTransition, Admissible, NoReplay;
    J.FaultFree(history, |history|);
    assert history[..|history|] == history;
    var previous: Option<Revision> := None;
    var decisions: set<string> := {};
    for i := 0 to |history|
      invariant previous == Before(history, i)
      invariant decisions == J.DecisionsOf(history, i)
      invariant J.FirstFault(history, i).None?
    {
      var item := history[i];
      if !IsTransition(previous, item) {
        FaultPersists(history, i + 1, |history|);
        return Some(J.InvalidTransition);
      }
      if Opens(item) {
        if item.decisionId in decisions {
          FaultPersists(history, i + 1, |history|);
          return Some(J.ReplayedDecision);
        }
        decisions := decisions + {item.decisionId};
      }
      previous := Some(item);
    }
    fault := None;
  }

  lemma {:induction false} FaultPersists(h: seq<Revision>, m: nat, n: nat)
    requires m <= n <= |h| && J.FirstFault(h, m).Some?
    ensures J.FirstFault(h, n) == J.FirstFault(h, m)
  {
    if m < n {
      FaultPersists(h, m, n - 1);
    }
  }

  class ActivationStore {
    var values: J.Store

    constructor ()
      ensures values == map[]
    {
      values := map[];
    }

    /** readHistory: walk the records backward from the head, each under the digest the newer one expects. */
    method ReadHistory(session: string, head: J.Head) returns (result: Result<seq<Revision>, J.Blocked>)
      requires head.revision >= 0
      ensures result == J.ReadHistory(values, session, head.revision, Some(head.digest), 0)
    {
      hide Pad16;
      var history: seq<Revision> := [];
      var expected := Some(head.digest);
      var revision: nat := head.revision;
      ghost var whole := J.ReadHistory(values, session, head.revision, Some(head.digest), 0);
      assert whole.Ok? ==> whole.value + [] == whole.value;
      while revision > 0
        invariant whole ==
          match J.ReadHistory(values, session, revision, expected, |history|)
          case Ok(older) => Ok(older + history)
          case Err(reason) => Err(reason)
      {
        if |history| >= J.MAX_REVISIONS {
          return Err(J.BoundExceeded);
        }
        var item := J.ReadRecord(J.Get(values, J.RevKey(session, revision)), session, revision, expected);
        if item.Err? {
          return Err(item.error);
        }
        var older := J.ReadHistory(values, session, revision - 1, item.value.previousDigest, |history| + 1);
        assert older.Ok? ==> (older.value + [item.value]) + history == older.value + ([item.value] + history);
        // Newest records are met first; putting each in front replaces push and reverse.
        history := [item.value] + history;
        expected := item.value.previousDigest;
        revision := revision - 1;
      }
      assert [] + history == history;
      result := Ok(history);
    }

    /** readJournal on a store nobody else writes meanwhile. */
    method Read(session: string) returns (result: Result<J.Journal, J.Blocked>)
      ensures result == J.ReadJournal(values, session)
    {
      hide Pad16;
      var raw := J.Get(values, J.HeadKey(session));
      var enrollment := J.Get(values, J.EnrollmentKey(session));
      if raw.None? {
        if enrollment.Some? || J.ScanFinds(values, session, None) {
          return Err(J.MissingHead);
        }
        return Ok(J.Journal(None, []));
      }
      var parsed := J.ParseHead(raw.value);
      if parsed.None? || parsed.value.sessionId != session {
        return Err(J.ForeignHead);
      }
      var head := parsed.value;
      if J.ScanFinds(values, session, Some(head.revision)) {
        return Err(J.PendingTransition);
      }
      var history := ReadHistory(session, head);
      if history.Err? {
        return Err(history.error);
      }
      if !J.IsEnrollmentBound(enrollment, session, J.First(history.value)) {
        return Err(J.UnboundEnrollment);
      }
      var fault := ValidateHistory(history.value);
      if fault.Some? {
        return Err(fault.value);
      }
      if J.Get(values, J.HeadKey(session)) != Some(J.HeadValue(head)) {
        return Err(J.ChangedDuringRead);
      }
      result := Ok(J.Journal(Some(head), history.value));
    }

    /** commitLocked: verify, authorize, prepare, then up to three writes of which `budget` take effect. */
    method CommitLocked(input: J.CommitInput, authorize: J.Authorize, budget: nat)
      returns (outcome: J.Outcome, left: nat)
      modifies this
      ensures (values, outcome, left) == J.Commit(old(values), input, authorize, budget)
    {
      hide Pad16, J.ReadJournal;
      left := budget;
      var journal := Read(input.sessionId);
      if journal.Err? {
        return J.Refused(journal.error), left;
      }
      if J.HeadRevision(journal.value) != input.expectedRevision {
        return J.Refused(J.StaleRevision), left;
      }
      var authorization := authorize(input, J.Last(journal.value.history));
      if authorization.Err? {
        return J.Refused(authorization.error), left;
      }
      var prepared := J.PrepareRevision(input, journal.value, authorization.value);
      if prepared.Err? {
        return J.Refused(prepared.error), left;
      }
      var record := prepared.value;
      var key := J.RevKey(input.sessionId, record.revision);
      if J.Get(values, key).Some? {
        return J.Refused(J.RevisionExists), left;
      }
      assert J.PlanCommit(values, input, authorize) == Ok(record);
      if input.expectedRevision == 0 {
        if left == 0 {
          return J.Interrupted, left;
        }
        values := values[J.EnrollmentKey(input.sessionId) :=
          J.EnrollmentValue(J.Enrollment(input.sessionId, record.activationId))];
        left := left - 1;
      }
      if left == 0 {
        return J.Interrupted, left;
      }
      values := values[key := J.RevisionValue(record)];
      left := left - 1;
      if left == 0 {
        return J.Interrupted, left;
      }
      values := values[J.HeadKey(input.sessionId) :=
        J.HeadValue(J.Head(input.sessionId, record.revision, RecordDigest(record)))];
      left := left - 1;
      outcome := J.Outcome.Committed(record);
    }

    /** startRootGovernance under the session lock. */
    method Start(session: string, prepare: P.Prepare, authorize: J.Authorize, freshId: string, budget: nat)
      returns (result: P.StartResult)
      modifies this
      ensures (values, result) == P.StartRoot(old(values), session, prepare, authorize, freshId, budget)
    {
      hide Pad16, J.ReadJournal, J.Commit;
      var journal := Read(session);
      if journal.Err? {
        return P.StartBlocked(journal.error);
      }
      var current := J.Last(journal.value.history);
      var settled := P.SettledStart(current);
      if settled.Some? && settled.value.StartBlocked? {
        return settled.value;
      }
      var request := prepare(current);
      if request.sessionId != session {
        return P.StartBlocked(J.SessionChanged);
      }
      if current.Some? && current.value.status == Active && !P.RootBindingMatches(current.value, request) {
        return P.StartBlocked(J.BindingMismatch);
      }
      if settled.Some? {
        return settled.value;
      }
      var revision := J.HeadRevision(journal.value);
      if current.Some? && current.value.status == Activating {
        result := CompleteStart(authorize, current.value, request, revision, true, budget);
        return;
      }
      var started, left := CommitLocked(P.StartInput(request, current, revision, freshId), authorize, budget);
      match started {
        case Refused(reason) => result := P.StartBlocked(reason);
        case Interrupted => result := P.StartInterrupted;
        case Committed(record) => result := CompleteStart(authorize, record, request, record.revision, false, left);
      }
    }

    method CompleteStart(
      authorize: J.Authorize, pending: Revision, request: P.RootRequest, revision: int, resumed: bool, budget: nat)
      returns (result: P.StartResult)
      modifies this
      ensures (values, result) == P.CompleteStart(old(values), authorize, pending, request, revision, resumed, budget)
    {
      hide Pad16, J.Commit;
      if !P.RootBindingMatches(pending, request) {
        return P.StartBlocked(J.BindingMismatch);
      }
      var active, left := CommitLocked(P.Continuation(pending, Activate, revision), authorize, budget);
      match active {
        case Refused(reason) => result := P.StartBlocked(reason);
        case Interrupted => result := P.StartInterrupted;
        case Committed(record) => result := P.Activated(record, resumed);
      }
    }

    /** endRootGovernance under the session lock. */
    method End(session: string, prepare: P.Prepare, authorize: J.Authorize, budget: nat)
      returns (result: P.EndResult)
      modifies this
      ensures (values, result) == P.EndRoot(old(values), session, prepare, authorize, budget)
    {
      hide Pad16, J.ReadJournal, J.Commit;
      var journal := Read(session);
      if journal.Err? {
        return P.EndBlocked(journal.error);
      }
      var current := J.Last(journal.value.history);
      var settled := P.SettledEnd(current);
      if settled.Some? {
        return settled.value;
      }
      var request := prepare(current);
      if request.sessionId != session || !P.RootBindingMatches(current.value, request) {
        return P.EndBlocked(J.BindingMismatch);
      }
      if current.value.status == Ending {
        result := CompleteEnd(authorize, current.value, request, current.value.revision, true, budget);
        return;
      }
      var revision := J.HeadRevision(journal.value);
      var begun, left := CommitLocked(P.BeginEndInput(request, current.value, revision), authorize, budget);
      match begun {
        case Refused(reason) => result := P.EndBlocked(reason);
        case Interrupted => result := P.EndInterrupted;
        case Committed(record) => result := CompleteEnd(authorize, record, request, record.revision, false, left);
      }
    }

    method CompleteEnd(
      authorize: J.Authorize, pending: Revision, request: P.RootRequest, revision: int, resumed: bool, budget: nat)
      returns (result: P.EndResult)
      modifies this
      ensures (values, result) == P.CompleteEnd(old(values), authorize, pending, request, revision, resumed, budget)
    {
      hide Pad16, J.Commit;
      if !P.RootBindingMatches(pending, request) {
        return P.EndBlocked(J.BindingMismatch);
      }
      var ended, left := CommitLocked(P.Continuation(pending, Action.End, revision), authorize, budget);
      match ended {
        case Refused(reason) => result := P.EndBlocked(reason);
        case Interrupted => result := P.EndInterrupted;
        case Committed(record) => result := P.Ended(record, resumed);
      }
    }
  }
}
