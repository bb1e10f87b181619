/**
 * The durable activation journal of one session (src/adapters/governance-activation.ts):
 * its keys, the verifying reader, and the three writes of a commit.
 *
 * The functions say what a call computes on one unchanging store; the class below
 * performs the same calls step by step and is proved equal to them.
 */
module GovernanceJournal {
  import opened Results
  import opened PaddedKeys
  import opened GovernanceRecords

  datatype Head = Head(sessionId: string, revision: int, digest: Digest)
  datatype Enrollment = Enrollment(sessionId: string, firstActivationId: string)

  /** Stored JSON: a document of one of the three shapes, or anything else. */
  datatype Value =
    | HeadValue(head: Head)
    | RevisionValue(record: Revision)
    | EnrollmentValue(enrollment: Enrollment)
    | OtherValue(text: string)

  /** Session ids enter keys through an injective hash, so each session has its own names. */
  datatype Key =
    | HeadKey(session: string)
    | RevisionKey(session: string, suffix: string)
    | EnrollmentKey(session: string)
    | OtherKey(text: string)

  type Store = map<Key, Value>

  datatype Blocked =
    | MissingHead
    | ForeignHead
    | PendingTransition
    | BoundExceeded
    | CorruptJournal
    | UnboundEnrollment
    | InvalidTransition
    | ReplayedDecision
    | ChangedDuringRead
    | StaleRevision
    | InvalidRevision
    | NotAdmissible
    | DecisionConsumed
    | RevisionExists
    | DelegatedChild
    | StillActivating
    | StillEnding
    | SessionChanged
    | BindingMismatch
    | Recovering(status: Status)
    | NotAuthorized(code: string)

  const MAX_REVISIONS := 10000

  function Get(s: Store, key: Key): Option<Value> {
    if key in s then Some(s[key]) else None
  }

  function RevKey(session: string, revision: nat): Key {
    RevisionKey(session, Pad16(revision))
  }

  /** Whether a scan of the session's revision keys, optionally after a revision, finds any. */
  predicate ScanFinds(s: Store, session: string, after: Option<nat>) {
    exists key | key in s ::
      && key.RevisionKey? && key.session == session
      && (after.Some? ==> LexLess(Pad16(after.value), key.suffix))
  }

  function ParseHead(raw: Value): Option<Head> {
    if raw.HeadValue? && raw.head.sessionId != "" && 0 < raw.head.revision <= MAX_SAFE_INTEGER
    then Some(raw.head) else None
  }

  function ParseRevision(raw: Option<Value>): Option<Revision> {
    if raw.Some? && raw.value.RevisionValue? && WellFormed(raw.value.record)
    then Some(raw.value.record) else None
  }

  predicate IsEnrollmentBound(raw: Option<Value>, session: string, first: Option<Revision>) {
    && raw.Some? && raw.value.EnrollmentValue? && raw.value.enrollment.sessionId != ""
    && raw.value.enrollment.sessionId == session
    && first.Some? && raw.value.enrollment.firstActivationId == first.value.activationId
  }

  /** One record of the backward walk, or the reason to stop. */
  function ReadRecord(raw: Option<Value>, session: string, revision: nat, expected: Option<Digest>)
    : Result<Revision, Blocked>
  {
    match ParseRevision(raw)
    case None => Err(CorruptJournal)
    case Some(r) =>
      if r.sessionId != session || r.revision != revision || expected != Some(RecordDigest(r))
      then Err(CorruptJournal) else Ok(r)
  }

  /** The records revision, revision-1, ..., 1, oldest first; `count` were read before. */
  function ReadHistory(s: Store, session: string, revision: nat, expected: Option<Digest>, count: nat)
    : Result<seq<Revision>, Blocked>
  {
    if revision == 0 then Ok([])
    else if count >= MAX_REVISIONS then Err(BoundExceeded)
    else
      var r :- ReadRecord(Get(s, RevKey(session, revision)), session, revision, expected);
      var older :- ReadHistory(s, session, revision - 1, r.previousDigest, count + 1);
      Ok(older + [r])
  }

  /** The first fault among the first n records, in the order the validator meets them. */
  function FirstFault(h: seq<Revision>, n: nat): Option<Blocked>
    requires n <= |h|
  {
    if n == 0 then None
    else
      var earlier := FirstFault(h, n - 1);
      if earlier.Some? then earlier
      else if !IsTransition(Before(h, n - 1), h[n - 1]) then Some(InvalidTransition)
      else if Opens(h[n - 1]) && h[n - 1].decisionId in DecisionsOf(h, n - 1) then Some(ReplayedDecision)
      else None
  }

  /** Decisions that opened one of the first n records. */
  function DecisionsOf(h: seq<Revision>, n: nat): set<string>
    requires n <= |h|
  {
    set i | 0 <= i < n && Opens(h[i]) :: h[i].decisionId
  }

  datatype Journal = Journal(head: Option<Head>, history: seq<Revision>)

  /** The last record of a history, if any. */
  function Last(h: seq<Revision>): Option<Revision> {
    Before(h, |h|)
  }

  function First(h: seq<Revision>): Option<Revision> {
    if h == [] then None else Some(h[0])
  }

  function ReadJournal(s: Store, session: string): Result<Journal, Blocked> {
    match Get(s, HeadKey(session))
    case None =>
      if Get(s, EnrollmentKey(session)).Some? || ScanFinds(s, session, None)
      then Err(MissingHead) else Ok(Journal(None, []))
    case Some(raw) =>
      match ParseHead(raw)
      case None => Err(ForeignHead)
      case Some(head) =>
        if head.sessionId != session then Err(ForeignHead)
        else if ScanFinds(s, session, Some(head.revision)) then Err(PendingTransition)
        else
          var history :- ReadHistory(s, session, head.revision, Some(head.digest), 0);
          if !IsEnrollmentBound(Get(s, EnrollmentKey(session)), session, First(history))
          then Err(UnboundEnrollment)
          else
            var fault := FirstFault(history, |history|);
            if fault.Some? then Err(fault.value) else Ok(Journal(Some(head), history))
  }

  // ---- What a verified journal is ----

  predicate LinksTo(prev: Option<Revision>, next: Revision) {
    prev.Some? ==> next.previousDigest == Some(RecordDigest(prev.value))
  }

  ghost predicate Linked(session: string, h: seq<Revision>) {
    && (forall i :: 0 <= i < |h| ==> WellFormed(h[i]) && h[i].sessionId == session && h[i].revision == i + 1)
    && (forall i {:trigger Before(h, i)} :: 0 <= i < |h| ==> LinksTo(Before(h, i), h[i]))
  }

  function HeadOf(session: string, h: seq<Revision>): Option<Head> {
    if h == [] then None else Some(Head(session, |h|, RecordDigest(h[|h| - 1])))
  }

  ghost predicate HoldsRevisions(s: Store, session: string, h: seq<Revision>) {
    forall i :: 0 <= i < |h| ==> Get(s, RevKey(session, i + 1)) == Some(RevisionValue(h[i]))
  }

  /** The session's keys hold exactly the history h, with its head and enrollment marker. */
  ghost predicate Stored(s: Store, session: string, h: seq<Revision>) {
    && Linked(session, h)
    && |h| <= MAX_SAFE_INTEGER
    && HoldsRevisions(s, session, h)
    && (if h == [] then
          Get(s, HeadKey(session)).None? && Get(s, EnrollmentKey(session)).None?
          && !ScanFinds(s, session, None)
        else
          && Get(s, HeadKey(session)) == Some(HeadValue(HeadOf(session, h).value))
          && IsEnrollmentBound(Get(s, EnrollmentKey(session)), session, Some(h[0]))
          && !ScanFinds(s, session, Some(|h|)))
  }

  ghost predicate ValidHistory(h: seq<Revision>) {
    |h| <= MAX_REVISIONS && Admissible(h) && NoReplay(h)
  }

  /** A prefix of an admissible history without replays is one, too. */
  lemma ValidPrefix(h: seq<Revision>, record: Revision)
    requires Admissible(h + [record]) && NoReplay(h + [record])
    ensures Admissible(h) && NoReplay(h) && IsTransition(Last(h), record)
    ensures Opens(record) ==> forall i :: 0 <= i < |h| && Opens(h[i]) ==> h[i].decisionId != record.decisionId
  {
    hide IsTransition;
    var g := h + [record];
    assert IsTransition(Before(g, |h|), g[|h|]);
    forall i {:trigger Before(h, i)} | 0 <= i < |h| ensures IsTransition(Before(h, i), h[i]) {
      assert IsTransition(Before(g, i), g[i]);
    }
    forall i, j | 0 <= i < j < |h| && Opens(h[i]) && Opens(h[j]) ensures h[i].decisionId != h[j].decisionId {
      assert g[i] == h[i] && g[j] == h[j];
    }
    forall i | 0 <= i < |h| && Opens(h[i]) && Opens(record) ensures h[i].decisionId != record.decisionId {
      assert g[i] == h[i] && g[|h|] == record;
    }
  }

  lemma AppendValid(h: seq<Revision>, record: Revision)
    requires Admissible(h) && NoReplay(h) && IsTransition(Last(h), record)
    requires Opens(record) ==> forall i :: 0 <= i < |h| && Opens(h[i]) ==> h[i].decisionId != record.decisionId
    ensures Admissible(h + [record]) && NoReplay(h + [record])
  {
    hide IsTransition;
    var g := h + [record];
    forall i {:trigger Before(g, i)} | 0 <= i < |g| ensures IsTransition(Before(g, i), g[i]) {
      if i < |h| {
        assert Before(g, i) == Before(h, i);
      } else {
        assert Before(g, i) == Last(h);
      }
    }
  }

  lemma {:induction false} FaultFree(h: seq<Revision>, n: nat)
    requires n <= |h|
    ensures FirstFault(h, n).None? <==> Admissible(h[..n]) && NoReplay(h[..n])
  {
    hide IsTransition, Admissible, NoReplay;
    if n == 0 {
      assert h[..0] == [];
      EmptyValid();
    } else {
      FaultFree(h, n - 1);
      var f, r := h[..n - 1], h[n - 1];
      assert h[..n] == f + [r];
      assert Last(f) == Before(h, n - 1);
      assert forall i :: 0 <= i < n - 1 ==> f[i] == h[i];
      if Admissible(f + [r]) && NoReplay(f + [r]) {
        ValidPrefix(f, r);
      } else if FirstFault(h, n).None? {
        AppendValid(f, r);
      }
    }
  }

  lemma EmptyValid()
    ensures Admissible([]) && NoReplay([])
  {
  }

  lemma LinkedSnoc(session: string, older: seq<Revision>, r: Revision)
    requires Linked(session, older)
    requires WellFormed(r) && r.sessionId == session && r.revision == |older| + 1
    requires older != [] ==> r.previousDigest == Some(RecordDigest(older[|older| - 1]))
    ensures Linked(session, older + [r])
  {
    var h := older + [r];
    forall i {:trigger Before(h, i)} | 0 <= i < |h| ensures LinksTo(Before(h, i), h[i]) {
      if i < |older| {
        assert Before(h, i) == Before(older, i);
      }
    }
  }

  lemma LinkedInit(session: string, h: seq<Revision>)
    requires Linked(session, h) && h != []
    ensures Linked(session, h[..|h| - 1])
    ensures |h| > 1 ==> h[|h| - 1].previousDigest == Some(RecordDigest(h[|h| - 2]))
  {
    var older := h[..|h| - 1];
    forall i {:trigger Before(older, i)} | 0 <= i < |older| ensures LinksTo(Before(older, i), older[i]) {
      assert Before(h, i) == Before(older, i);
    }
    assert LinksTo(Before(h, |h| - 1), h[|h| - 1]);
  }

  /** A walk that succeeds found a digest-linked history under the keys 1..revision. */
  lemma {:induction false} HistoryReadSound(
    s: Store, session: string, revision: nat, expected: Option<Digest>, count: nat)
    requires ReadHistory(s, session, revision, expected, count).Ok?
    ensures var h := ReadHistory(s, session, revision, expected, count).value;
      && |h| == revision
      && (revision > 0 ==> count + revision <= MAX_REVISIONS && expected == Some(RecordDigest(h[revision - 1])))
      && Linked(session, h) && HoldsRevisions(s, session, h)
  {
    hide Pad16;
    if revision > 0 {
      var r := ReadRecord(Get(s, RevKey(session, revision)), session, revision, expected).value;
      HistoryReadSound(s, session, revision - 1, r.previousDigest, count + 1);
      LinkedSnoc(session, ReadHistory(s, session, revision - 1, r.previousDigest, count + 1).value, r);
    }
  }

  /** The walk returns every digest-linked history within the bound. */
  lemma {:induction false} HistoryReadComplete(
    s: Store, session: string, revision: nat, expected: Option<Digest>, count: nat, h: seq<Revision>)
    requires |h| == revision
    requires revision > 0 ==> count + revision <= MAX_REVISIONS && expected == Some(RecordDigest(h[revision - 1]))
    requires Linked(session, h) && HoldsRevisions(s, session, h)
    ensures ReadHistory(s, session, revision, expected, count) == Ok(h)
  {
    hide Pad16;
    if revision > 0 {
      var older, r := h[..revision - 1], h[revision - 1];
      assert h == older + [r];
      LinkedInit(session, h);
      HistoryReadComplete(s, session, revision - 1, r.previousDigest, count + 1, older);
    }
  }

  lemma EmptyLinked(s: Store, session: string)
    ensures Linked(session, []) && HoldsRevisions(s, session, [])
  {
  }

  /** The reader accepts exactly the stores that hold a valid history, and returns that history. */
  lemma ReadIffStored(s: Store, session: string, journal: Journal)
    ensures ReadJournal(s, session) == Ok(journal) <==>
      && Stored(s, session, journal.history)
      && ValidHistory(journal.history)
      && journal.head == HeadOf(session, journal.history)
  {
    hide Pad16, FirstFault, ReadHistory, Admissible, NoReplay, WellFormed, Linked, HoldsRevisions;
    var h := journal.history;
    FaultFree(h, |h|);
    assert h[..|h|] == h;
    match Get(s, HeadKey(session)) {
      case None =>
        EmptyValid();
        EmptyLinked(s, session);
      case Some(raw) =>
        if ParseHead(raw).Some? {
          var head := ParseHead(raw).value;
          if ReadHistory(s, session, head.revision, Some(head.digest), 0).Ok? {
            HistoryReadSound(s, session, head.revision, Some(head.digest), 0);
          }
          if Stored(s, session, h) && ValidHistory(h) && journal.head == HeadOf(session, h) {
            HistoryReadComplete(s, session, head.revision, Some(head.digest), 0, h);
          }
        }
    }
  }

  // ---- Commit ----

  datatype Decision = Decision(decisionId: string, source: Source, actor: Actor)

  datatype CommitInput = CommitInput(
    action: Action,
    expectedRevision: int,
    sessionId: string,
    rootSessionId: string,
    activationId: string,
    generation: int,
    directory: string,
    worktreeRoot: string,
    policyDigest: string,
    parentDispatch: Option<Dispatch>)

  /** The authorization port: what it answers to a request on the current revision. */
  type Authorize = (CommitInput, Option<Revision>) -> Result<Decision, Blocked>

  function PrepareRevision(input: CommitInput, journal: Journal, decision: Decision): Result<Revision, Blocked> {
    var record := Revision(
      input.sessionId, input.rootSessionId, input.activationId, input.generation,
      input.expectedRevision + 1, Target(input.action),
      input.directory, input.worktreeRoot, input.policyDigest,
      decision.decisionId, decision.source, decision.actor,
      if journal.head.Some? then Some(journal.head.value.digest) else None,
      input.parentDispatch);
    if !WellFormed(record) then Err(InvalidRevision)
    else if !IsTransition(Last(journal.history), record) then Err(NotAdmissible)
    else if (input.action.Start? || input.action.BeginEnd?)
         && exists i :: 0 <= i < |journal.history| && journal.history[i].decisionId == decision.decisionId
    then Err(DecisionConsumed)
    else Ok(record)
  }

  function HeadRevision(journal: Journal): int {
    if journal.head.Some? then journal.head.value.revision else 0
  }

  /** The record a commit will write, or why it writes nothing. */
  function PlanCommit(s: Store, input: CommitInput, authorize: Authorize): Result<Revision, Blocked> {
    var journal :- ReadJournal(s, input.sessionId);
    if HeadRevision(journal) != input.expectedRevision then Err(StaleRevision)
    else
      var decision :- authorize(input, Last(journal.history));
      var record :- PrepareRevision(input, journal, decision);
      if Get(s, RevKey(input.sessionId, record.revision)).Some? then Err(RevisionExists) else Ok(record)
  }

  function WriteCount(record: Revision): nat {
    if record.revision == 1 then 3 else 2
  }

  /** The store after the first k of a commit's writes: enrollment (first revision only), revision, head. */
  function After(s: Store, record: Revision, k: nat): Store
    requires record.revision > 0
  {
    var session := record.sessionId;
    var first := record.revision == 1;
    var s1 := if first && k >= 1
              then s[EnrollmentKey(session) := EnrollmentValue(Enrollment(session, record.activationId))] else s;
    var s2 := if k >= WriteCount(record) - 1
              then s1[RevKey(session, record.revision) := RevisionValue(record)] else s1;
    if k >= WriteCount(record)
    then s2[HeadKey(session) := HeadValue(Head(session, record.revision, RecordDigest(record)))] else s2
  }

  datatype Outcome = Committed(record: Revision) | Refused(reason: Blocked) | Interrupted

  /**
   * A commit that is cut off after `budget` writes, by a crash or a failing store:
   * the store it leaves, its outcome, and the writes left for later commits.
   */
  function Commit(s: Store, input: CommitInput, authorize: Authorize, budget: nat): (Store, Outcome, nat) {
    match PlanCommit(s, input, authorize)
    case Err(reason) => (s, Refused(reason), budget)
    case Ok(record) =>
      if budget < WriteCount(record) then (After(s, record, budget), Interrupted, 0)
      else (After(s, record, WriteCount(record)), Outcome.Committed(record), budget - WriteCount(record))
  }

  /** The journal a plan read, without its next key ever being looked up. */
  lemma PlanUnfolds(s: Store, h: seq<Revision>, input: CommitInput, authorize: Authorize)
    requires var session := input.sessionId; ReadJournal(s, session) == Ok(Journal(HeadOf(session, h), h))
    ensures Stored(s, input.sessionId, h) && ValidHistory(h)
    ensures HeadRevision(Journal(HeadOf(input.sessionId, h), h)) == |h|
    ensures PlanCommit(s, input, authorize) ==
      (if |h| != input.expectedRevision then Err(StaleRevision)
       else match authorize(input, Last(h))
            case Err(reason) => Err(reason)
            case Ok(decision) => PrepareRevision(input, Journal(HeadOf(input.sessionId, h), h), decision))
  {
    hide Pad16, ReadJournal, IsTransition, WellFormed, Stored, ValidHistory;
    var session := input.sessionId;
    ReadIffStored(s, session, Journal(HeadOf(session, h), h));
    NextKeyFree(s, session, h);
  }

  /** A stored journal has no record under the next key, so the append-only check passes. */
  lemma NextKeyFree(s: Store, session: string, h: seq<Revision>)
    requires Stored(s, session, h) && ValidHistory(h)
    ensures Get(s, RevKey(session, |h| + 1)).None?
  {
    hide Pad16, Linked, HoldsRevisions, Admissible, NoReplay;
    if Get(s, RevKey(session, |h| + 1)).Some? {
      ScanExtends(s, session, |h|);
    }
  }

  /** What a successful plan knows about the journal and the planned record. */
  lemma PlannedRecord(s: Store, input: CommitInput, authorize: Authorize) returns (h: seq<Revision>)
    requires PlanCommit(s, input, authorize).Ok?
    ensures ReadJournal(s, input.sessionId) == Ok(Journal(HeadOf(input.sessionId, h), h))
    ensures Stored(s, input.sessionId, h) && ValidHistory(h)
    ensures var record := PlanCommit(s, input, authorize).value;
      && WellFormed(record) && record.sessionId == input.sessionId
      && record.revision == |h| + 1 == input.expectedRevision + 1
      && record.status == Target(input.action) && record.parentDispatch == input.parentDispatch
      && record.activationId == input.activationId && record.generation == input.generation
      && record.rootSessionId == input.rootSessionId && record.directory == input.directory
      && record.worktreeRoot == input.worktreeRoot && record.policyDigest == input.policyDigest
      && IsTransition(Last(h), record) && LinksTo(Last(h), record)
      && (Opens(record) ==> forall i :: 0 <= i < |h| ==> h[i].decisionId != record.decisionId)
  {
    hide Pad16, ReadJournal, IsTransition, WellFormed, Stored, ValidHistory;
    var session := input.sessionId;
    h := ReadJournal(s, session).value.history;
    ReadIffStored(s, session, ReadJournal(s, session).value);
    PlanUnfolds(s, h, input, authorize);
  }

  lemma ScanExtends(t: Store, session: string, n: nat)
    requires n < 1000000000000000
    requires Get(t, RevKey(session, n + 1)).Some?
    ensures ScanFinds(t, session, None) && ScanFinds(t, session, Some(n))
  {
    PaddedOrder(n, n + 1);
    assert RevKey(session, n + 1) in t;
  }

  lemma ScanAfterAppend(s: Store, t: Store, session: string, n: nat, after: Option<nat>)
    requires n < 1000000000000000
    requires if n == 0 then after == None else after == Some(n)
    requires !ScanFinds(s, session, after)
    requires forall key :: key in t && key.RevisionKey? && key.session == session ==>
      key in s || key == RevKey(session, n + 1)
    ensures !ScanFinds(t, session, Some(n + 1))
  {
    forall key | key in t && key.RevisionKey? && key.session == session
      ensures !LexLess(Pad16(n + 1), key.suffix)
    {
      PaddedOrder(n, n + 1);
      PaddedOrder(n + 1, n + 1);
      if key in s && key != RevKey(session, n + 1) {
        if n > 0 {
          assert !LexLess(Pad16(n), key.suffix);
          if LexLess(Pad16(n + 1), key.suffix) {
            LexLessTransitive(Pad16(n), Pad16(n + 1), key.suffix);
          }
        }
      }
    }
  }

  lemma FullCommitStores(s: Store, h: seq<Revision>, record: Revision)
    requires Stored(s, record.sessionId, h) && |h| <= MAX_REVISIONS
    requires WellFormed(record) && record.revision == |h| + 1
    requires LinksTo(Last(h), record)
    requires h == [] || h[0].activationId == (h + [record])[0].activationId
    ensures Stored(After(s, record, WriteCount(record)), record.sessionId, h + [record])
  {
    hide Pad16;
    var session := record.sessionId;
    var t, g := After(s, record, WriteCount(record)), h + [record];
    forall i | 0 <= i < |g| ensures Get(t, RevKey(session, i + 1)) == Some(RevisionValue(g[i])) {
      PaddedOrder(i + 1, |h| + 1);
    }
    ScanAfterAppend(s, t, session, |h|, if |h| == 0 then None else Some(|h|));
    LinkedSnoc(session, h, record);
  }

  /**
   * Crash safety of one commit. Cut off before its first write nothing changed;
   * cut off later, every reader is blocked; complete, the journal is the old one
   * plus the record. The reader's bound of 10000 revisions is the one exception:
   * the commit that passes it succeeds and leaves a journal no reader accepts.
   */
  lemma CommitIsAtomic(s: Store, input: CommitInput, authorize: Authorize, k: nat)
    requires PlanCommit(s, input, authorize).Ok?
    ensures var record := PlanCommit(s, input, authorize).value;
      var h := ReadJournal(s, input.sessionId).value.history;
      var cut := After(s, record, k);
      && (k == 0 ==> cut == s)
      && (0 < k < WriteCount(record) ==>
            ReadJournal(cut, input.sessionId) == Err(if h == [] then MissingHead else PendingTransition))
      && (k >= WriteCount(record) ==>
            Stored(cut, input.sessionId, h + [record]) && Admissible(h + [record]) && NoReplay(h + [record])
            && ReadJournal(cut, input.sessionId) ==
                 (if |h| < MAX_REVISIONS then Ok(Journal(HeadOf(input.sessionId, h + [record]), h + [record]))
                  else Err(BoundExceeded)))
  {
    hide Pad16, ReadJournal, PlanCommit, IsTransition, WellFormed, Stored, Admissible, NoReplay;
    var session := input.sessionId;
    var record := PlanCommit(s, input, authorize).value;
    var h := PlannedRecord(s, input, authorize);
    if 0 < k < WriteCount(record) {
      CutCommitBlocks(s, h, record, k);
    } else if k >= WriteCount(record) {
      AppendValid(h, record);
      FullCommitStores(s, h, record);
      StoredReads(After(s, record, WriteCount(record)), session, h + [record]);
    }
  }

  lemma CutCommitBlocks(s: Store, h: seq<Revision>, record: Revision, k: nat)
    requires Stored(s, record.sessionId, h) && |h| <= MAX_REVISIONS
    requires record.revision == |h| + 1
    requires 0 < k < WriteCount(record)
    ensures ReadJournal(After(s, record, k), record.sessionId)
         == Err(if h == [] then MissingHead else PendingTransition)
  {
    hide Pad16;
    if k == WriteCount(record) - 1 {
      ScanExtends(After(s, record, k), record.sessionId, |h|);
    }
  }

  /** Reading a stored, valid history: accepted up to the bound, refused beyond it. */
  lemma StoredReads(s: Store, session: string, h: seq<Revision>)
    requires Stored(s, session, h) && Admissible(h) && NoReplay(h) && h != []
    ensures ReadJournal(s, session) ==
      (if |h| <= MAX_REVISIONS then Ok(Journal(HeadOf(session, h), h)) else Err(BoundExceeded))
  {
    hide Pad16;
    if |h| <= MAX_REVISIONS {
      ReadIffStored(s, session, Journal(HeadOf(session, h), h));
    } else {
      BoundBlocks(s, session, |h|, Some(RecordDigest(h[|h| - 1])), 0, h);
    }
  }

  /** A history longer than the bound is refused by the walk, whatever else is right. */
  lemma {:induction false} BoundBlocks(
    s: Store, session: string, revision: nat, expected: Option<Digest>, count: nat, h: seq<Revision>)
    requires Linked(session, h) && |h| == revision > 0
    requires expected == Some(RecordDigest(h[revision - 1]))
    requires HoldsRevisions(s, session, h)
    requires count <= MAX_REVISIONS < count + revision
    ensures ReadHistory(s, session, revision, expected, count) == Err(BoundExceeded)
    decreases revision
  {
    hide Pad16;
    if count < MAX_REVISIONS {
      var older := h[..revision - 1];
      LinkedInit(session, h);
      BoundBlocks(s, session, revision - 1, h[revision - 1].previousDigest, count + 1, older);
    }
  }
}
