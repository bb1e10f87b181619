/**
 * The reader verifies at most 10000 revisions, but commits do not count them. This
 * module builds the journal that reaches the bound and shows what Start does there.
 */
module GovernanceBound {
  import opened Results
  import opened PaddedKeys
  import opened GovernanceRecords
  import opened GovernanceJournal
  import opened GovernanceProtocol

  /**
   * A Start whose two commits are both authorized leaves a readable ACTIVE journal
   * exactly when the journal it started from held fewer than 10000 revisions. At
   * the bound its first commit takes effect, its second is refused, and every
   * later read of the session is blocked.
   */
  lemma StartNeedsRoom(
    s: Store, session: string, h: seq<Revision>, prepare: Prepare, authorize: Authorize, freshId: string, budget: nat)
    requires ReadJournal(s, session) == Ok(Journal(HeadOf(session, h), h)) && Startable(Last(h))
    requires prepare(Last(h)).sessionId == session && budget >= 5
    requires var input := StartInput(prepare(Last(h)), Last(h), |h|, freshId);
      && PlanCommit(s, input, authorize).Ok?
      && var r1 := PlanCommit(s, input, authorize).value;
      && StandsBy(authorize, r1, Activate)
      && prepare(Some(r1)) == prepare(Last(h))
    ensures var (t, result) := StartRoot(s, session, prepare, authorize, freshId, budget);
      && (ReadJournal(t, session).Ok? <==> |h| < MAX_REVISIONS)
      && (|h| < MAX_REVISIONS ==> result.Activated? && !result.resumed)
      && (|h| == MAX_REVISIONS ==> result == StartBlocked(BoundExceeded)
                                   && ReadJournal(t, session) == Err(BoundExceeded))
  {
    hide Pad16, ReadJournal, PlanCommit, After, IsTransition, WellFormed, Stored;
    StartableLength(s, session, h);
    var input := StartInput(prepare(Last(h)), Last(h), |h|, freshId);
    if |h| + 2 <= MAX_REVISIONS {
      StartCutAndResumed(s, session, h, prepare, authorize, freshId, freshId, budget);
    } else {
      var _ := PlannedRecord(s, input, authorize);
      var r1 := PlanCommit(s, input, authorize).value;
      CommitIsAtomic(s, input, authorize, WriteCount(r1));
      var again := Continuation(r1, Activate, r1.revision);
      BlockedPlan(After(s, r1, WriteCount(r1)), again, authorize);
    }
  }

  lemma BlockedPlan(s: Store, input: CommitInput, authorize: Authorize)
    requires ReadJournal(s, input.sessionId).Err?
    ensures PlanCommit(s, input, authorize) == Err(ReadJournal(s, input.sessionId).error)
  {
    hide ReadJournal;
  }

  /** Startable scopes have 0, 4, 8, ... revisions. */
  lemma StartableLength(s: Store, session: string, h: seq<Revision>)
    requires ReadJournal(s, session) == Ok(Journal(HeadOf(session, h), h)) && Startable(Last(h))
    ensures |h| % 4 == 0 && |h| <= MAX_REVISIONS
  {
    hide Pad16, ReadJournal, IsTransition, WellFormed, HoldsRevisions;
    ReadIffStored(s, session, Journal(HeadOf(session, h), h));
    if h != [] {
      if h[0].parentDispatch.None? {
        RootHistoryShape(h, |h| - 1);
      } else {
        ChildHistoryShape(h, |h| - 1);
      }
    }
  }

  // ---- A journal at the bound ----

  const OPERATOR := Actor("operator", None, None, Env, "best_effort")

  /** Revision i+1 of an exemplary root scope: every Start and End pair under its own decision. */
  function CycleRecord(i: nat, previous: Option<Revision>): Revision {
    Revision("root", "root", Pad16(i / 4), i / 4 + 1, i + 1, CycleStatus(i), "/project", "/project", "policy",
             Pad16(i / 2), HostCommand, OPERATOR,
             if previous.Some? then Some(RecordDigest(previous.value)) else None, None)
  }

  function Cycle(n: nat): (h: seq<Revision>)
    ensures |h| == n
  {
    if n == 0 then [] else Cycle(n - 1) + [CycleRecord(n - 1, Last(Cycle(n - 1)))]
  }

  function CycleStore(n: nat): Store {
    if n == 0 then map[] else After(CycleStore(n - 1), CycleRecord(n - 1, Last(Cycle(n - 1))), 3)
  }

  lemma {:induction false} CycleAt(n: nat, i: nat)
    requires i < n
    ensures Cycle(n)[i] == CycleRecord(i, Before(Cycle(n), i))
  {
    hide Pad16;
    if i < n - 1 {
      CycleAt(n - 1, i);
      assert Before(Cycle(n), i) == Before(Cycle(n - 1), i);
    }
  }

  lemma {:induction false} CycleIsStored(n: nat)
    requires n <= MAX_REVISIONS
    ensures Stored(CycleStore(n), "root", Cycle(n)) && Admissible(Cycle(n)) && NoReplay(Cycle(n))
    ensures ReadJournal(CycleStore(n), "root") == Ok(Journal(HeadOf("root", Cycle(n)), Cycle(n)))
  {
    hide Pad16, ReadJournal, Stored, IsTransition, WellFormed, Admissible, NoReplay, After, CycleRecord;
    if n == 0 {
      EmptyStored();
      EmptyValid();
      ReadIffStored(CycleStore(0), "root", Journal(None, []));
    } else {
      CycleIsStored(n - 1);
      var h, r := Cycle(n - 1), CycleRecord(n - 1, Last(Cycle(n - 1)));
      CycleStep(n - 1);
      AppendValid(h, r);
      CycleCount(n - 1);
      FullCommitStores(CycleStore(n - 1), h, r);
      StoredReads(CycleStore(n), "root", Cycle(n));
    }
  }

  lemma EmptyStored()
    ensures Stored(map[], "root", [])
  {
  }

  /** Cutting after three writes or after WriteCount writes is the same: nothing is left to write. */
  lemma CycleCount(n: nat)
    ensures var r := CycleRecord(n, Last(Cycle(n)));
      After(CycleStore(n), r, 3) == After(CycleStore(n), r, WriteCount(r))
  {
    hide Pad16, Cycle, CycleStore;
  }

  lemma CycleStep(n: nat)
    requires n <= MAX_REVISIONS
    ensures var r := CycleRecord(n, Last(Cycle(n)));
      && r.sessionId == "root" && r.revision == n + 1
      && IsTransition(Last(Cycle(n)), r) && WellFormed(r) && LinksTo(Last(Cycle(n)), r)
      && (Opens(r) ==> forall i :: 0 <= i < n ==> Cycle(n)[i].decisionId != r.decisionId)
  {
    hide Pad16, IsTransition, LinksTo, WellFormed, CycleStatus;
    if n > 0 {
      CycleAt(n, n - 1);
      CycleFollows(n, Before(Cycle(n), n - 1));
    } else {
      CycleOpens();
    }
    forall i | 0 <= i < n && Opens(CycleRecord(n, Last(Cycle(n))))
      ensures Cycle(n)[i].decisionId != CycleRecord(n, Last(Cycle(n))).decisionId
    {
      CycleAt(n, i);
      CycleDecisions(i, n, Before(Cycle(n), i), Last(Cycle(n)));
    }
  }

  lemma CycleOpens()
    ensures IsTransition(None, CycleRecord(0, None)) && WellFormed(CycleRecord(0, None))
    ensures LinksTo(None, CycleRecord(0, None))
  {
    assert |Pad16(0 / 2)| >= 16;
    hide Pad16;
  }

  lemma CycleFollows(n: nat, earlier: Option<Revision>)
    requires 0 < n <= MAX_REVISIONS
    ensures var prev := CycleRecord(n - 1, earlier);
      IsTransition(Some(prev), CycleRecord(n, Some(prev))) && WellFormed(CycleRecord(n, Some(prev)))
      && LinksTo(Some(prev), CycleRecord(n, Some(prev)))
  {
    CyclePositions(n);
    CycleNames(n);
    CycleWellFormed(n, Some(CycleRecord(n - 1, earlier)));
    hide Pad16, CycleStatus, WellFormed;
  }

  lemma CycleWellFormed(n: nat, previous: Option<Revision>)
    requires n <= MAX_REVISIONS
    ensures WellFormed(CycleRecord(n, previous))
  {
    assert |Pad16(n / 2)| >= 16;
    hide Pad16;
  }

  /** Decisions change with each opening record, activations with each Start. */
  lemma CycleNames(n: nat)
    requires 0 < n <= MAX_REVISIONS
    ensures Pad16(n / 2) == Pad16((n - 1) / 2) <==> CycleStatus(n) != Activating && CycleStatus(n) != Ending
    ensures Pad16(n / 4) == Pad16((n - 1) / 4) <==> CycleStatus(n) != Activating
  {
    hide Pad16, CycleStatus, LexLess;
    CyclePositions(n);
    PaddedOrder((n - 1) / 2, n / 2);
    PaddedOrder((n - 1) / 4, n / 4);
  }

  lemma CyclePositions(n: nat)
    requires n > 0
    ensures CycleStatus(n) == Activating <==> CycleStatus(n - 1) == Inactive
    ensures CycleStatus(n) == Active <==> CycleStatus(n - 1) == Activating
    ensures CycleStatus(n) == Ending <==> CycleStatus(n - 1) == Active
    ensures CycleStatus(n) == Inactive <==> CycleStatus(n - 1) == Ending
    ensures n / 4 == (n - 1) / 4 + (if CycleStatus(n) == Activating then 1 else 0)
    ensures n / 2 == (n - 1) / 2 + (if CycleStatus(n) == Activating || CycleStatus(n) == Ending then 1 else 0)
  {
    var q, r := (n - 1) / 4, (n - 1) % 4;
    assert n - 1 == 4 * q + r;
    if r == 0 {
      assert n % 4 == 1 && n / 4 == q && n / 2 == 2 * q && (n - 1) / 2 == 2 * q;
    } else if r == 1 {
      assert n % 4 == 2 && n / 4 == q && n / 2 == 2 * q + 1 && (n - 1) / 2 == 2 * q;
    } else if r == 2 {
      assert n % 4 == 3 && n / 4 == q && n / 2 == 2 * q + 1 && (n - 1) / 2 == 2 * q + 1;
    } else {
      assert n % 4 == 0 && n / 4 == q + 1 && n / 2 == 2 * q + 2 && (n - 1) / 2 == 2 * q + 1;
    }
  }

  lemma CycleDecisions(i: nat, n: nat, a: Option<Revision>, b: Option<Revision>)
    requires i < n <= MAX_REVISIONS && Opens(CycleRecord(n, b))
    ensures CycleRecord(i, a).decisionId != CycleRecord(n, b).decisionId
  {
    OpeningIsEven(n);
    hide Pad16, LexLess, CycleStatus;
    assert i / 2 < n / 2;
    PaddedOrder(i / 2, n / 2);
  }

  lemma OpeningIsEven(n: nat)
    requires CycleStatus(n) == Activating || CycleStatus(n) == Ending
    ensures n % 2 == 0
  {
    var q, r := n / 4, n % 4;
    assert n == 2 * (2 * q) + r;
  }

  /**
   * Every length up to the bound is reachable by completed cycles of one session,
   * so 2500 cycles fill the journal of a scope that may be started again.
   */
  lemma BoundIsReached(cycles: nat)
    requires cycles <= MAX_REVISIONS / 4
    ensures var n := 4 * cycles;
      && ReadJournal(CycleStore(n), "root") == Ok(Journal(HeadOf("root", Cycle(n)), Cycle(n)))
      && |Cycle(n)| == n && Startable(Last(Cycle(n)))
  {
    hide Pad16, ReadJournal, CycleStore, Cycle;
    CycleIsStored(4 * cycles);
    if cycles > 0 {
      CycleAt(4 * cycles, 4 * cycles - 1);
      assert 4 * cycles - 1 == 4 * (cycles - 1) + 3;
    }
  }

  const REQUEST := RootRequest("root", "/project", "/project", "policy")

  const PREPARED: Prepare := (current: Option<Revision>) => REQUEST

  /** An operator who grants every request of one Start under the next unused decision. */
  function Granted(n: nat): Authorize {
    (input: CommitInput, current: Option<Revision>) => Ok(Decision(Pad16(n / 2), HostCommand, OPERATOR))
  }

  /** The next Start after complete cycles passes every check of its first commit. */
  lemma NextCyclePlans(n: nat)
    requires n <= MAX_REVISIONS && n % 4 == 0
    ensures PlanCommit(CycleStore(n), StartInput(REQUEST, Last(Cycle(n)), n, Pad16(n / 4)), Granted(n))
      == Ok(CycleRecord(n, Last(Cycle(n))))
  {
    hide Pad16, ReadJournal, PlanCommit, CycleStore, Cycle, IsTransition, WellFormed, Stored, ValidHistory;
    var s, h := CycleStore(n), Cycle(n);
    CycleIsStored(n);
    CycleStep(n);
    if n > 0 {
      CycleAt(n, n - 1);
      LastDigest(h);
    }
    PlanUnfolds(s, h, StartInput(REQUEST, Last(h), n, Pad16(n / 4)), Granted(n));
  }

  lemma LastDigest(h: seq<Revision>)
    requires h != []
    ensures HeadOf("root", h).value.digest == RecordDigest(Last(h).value)
  {
  }

  /**
   * The failure at the bound, concretely: a readable, inactive scope is started after
   * any number of complete cycles, with every check passed and every decision granted.
   * After fewer than 2500 cycles it becomes active; after 2500 the call is refused half
   * way, and the session can never be read again.
   */
  lemma StartAfterCycles(n: nat)
    requires n <= 10000 && n % 4 == 0
    ensures var (t, result) := StartRoot(CycleStore(n), "root", PREPARED, Granted(n), Pad16(n / 4), 5);
      && (ReadJournal(t, "root").Ok? <==> n < 10000)
      && (n < 10000 ==> result.Activated?)
      && (n == 10000 ==> result == StartBlocked(BoundExceeded))
  {
    hide Pad16, ReadJournal, PlanCommit, CycleStore, Cycle, StartRoot;
    assert n == 4 * (n / 4);
    BoundIsReached(n / 4);
    NextCyclePlans(n);
    StartNeedsRoom(CycleStore(n), "root", Cycle(n), PREPARED, Granted(n), Pad16(n / 4), 5);
  }
}
