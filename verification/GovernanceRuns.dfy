/**
 * Whole runs of one session's journal. Writers hold the session lock one at a
 * time, may die between any two writes, and are joined by other sessions writing
 * under their own keys. A reader without the lock takes its reads one by one.
 */
module GovernanceRuns {
  import opened Results
  import opened PaddedKeys
  import opened GovernanceRecords
  import opened GovernanceJournal

  /** The lock holder: its commit began on the store `base` and has made `done` writes. */
  datatype Writer = Idle | Busy(base: Store, record: Revision, done: nat)

  datatype System = System(store: Store, writer: Writer)

  predicate Own(session: string, key: Key) {
    match key
    case HeadKey(s) => s == session
    case RevisionKey(s, _) => s == session
    case EnrollmentKey(s) => s == session
    case OtherKey(_) => false
  }

  /** Two stores that agree on everything the session's journal is made of. */
  ghost predicate SameJournal(session: string, s: Store, t: Store) {
    forall key :: Own(session, key) ==> Get(s, key) == Get(t, key)
  }

  /** A commit that passes every check, then holds the lock until it finishes or dies. */
  ghost predicate Begins(session: string, a: System, b: System) {
    && a.writer == Idle && b.store == a.store
    && b.writer.Busy? && b.writer.base == a.store && b.writer.done == 0
    && exists input: CommitInput, authorize: Authorize ::
         input.sessionId == session && PlanCommit(a.store, input, authorize) == Ok(b.writer.record)
  }

  ghost predicate Writes(session: string, a: System, b: System) {
    && a.writer.Busy? && a.writer.record.revision > 0
    && a.writer.done < WriteCount(a.writer.record)
    && b.store == Written(a.store, a.writer.record, a.writer.done)
    && b.writer == (if a.writer.done + 1 == WriteCount(a.writer.record) then Idle
                    else a.writer.(done := a.writer.done + 1))
  }

  /** The store after the commit's write number `index`: enrollment, revision and head, in this order. */
  function Written(s: Store, record: Revision, index: nat): Store
    requires record.revision > 0
  {
    if index + 1 == WriteCount(record) then
      s[HeadKey(record.sessionId) := HeadValue(Head(record.sessionId, record.revision, RecordDigest(record)))]
    else if index + 2 == WriteCount(record) then
      s[RevKey(record.sessionId, record.revision) := RevisionValue(record)]
    else
      s[EnrollmentKey(record.sessionId) := EnrollmentValue(Enrollment(record.sessionId, record.activationId))]
  }

  ghost predicate Dies(a: System, b: System) {
    a.writer.Busy? && b == System(a.store, Idle)
  }

  /** Anything other sessions do to their own keys. */
  ghost predicate Elsewhere(session: string, a: System, b: System) {
    SameJournal(session, a.store, b.store) && b.writer == a.writer
  }

  ghost predicate Step(session: string, a: System, b: System) {
    Begins(session, a, b) || Writes(session, a, b) || Dies(a, b) || Elsewhere(session, a, b)
  }

  ghost predicate StepAt(session: string, run: seq<System>, i: nat)
    requires i + 1 < |run|
  {
    Step(session, run[i], run[i + 1])
  }

  ghost predicate IsRun(session: string, run: seq<System>) {
    run != [] && forall i :: 0 <= i < |run| - 1 ==> StepAt(session, run, i)
  }

  /** A busy writer's store is the base journal with the writes made so far. */
  ghost predicate Sound(session: string, a: System) {
    a.writer.Busy? ==>
      var w := a.writer;
      && w.record.sessionId == session && w.record.revision > 0
      && w.done < WriteCount(w.record)
      && (exists input: CommitInput, authorize: Authorize ::
            input.sessionId == session && PlanCommit(w.base, input, authorize) == Ok(w.record))
      && SameJournal(session, a.store, After(w.base, w.record, w.done))
  }

  lemma WriteFollowsAfter(s: Store, record: Revision, k: nat)
    requires record.revision > 0 && k < WriteCount(record)
    ensures Written(After(s, record, k), record, k) == After(s, record, k + 1)
  {
    hide Pad16;
  }

  lemma SoundStep(session: string, a: System, b: System)
    requires Sound(session, a) && Step(session, a, b)
    ensures Sound(session, b)
  {
    hide Pad16, ReadJournal, PlanCommit;
    if Begins(session, a, b) {
      var input: CommitInput, authorize: Authorize :|
        input.sessionId == session && PlanCommit(a.store, input, authorize) == Ok(b.writer.record);
      var _ := PlannedRecord(a.store, input, authorize);
    } else if Writes(session, a, b) {
      var w := a.writer;
      WriteFollowsAfter(w.base, w.record, w.done);
      assert SameJournal(session, b.store, Written(After(w.base, w.record, w.done), w.record, w.done)) by {
        hide After;
      }
    }
  }

  // ---- Reading depends on the session's keys only ----

  lemma {:induction false} HistoryFrame(
    session: string, s: Store, t: Store, revision: nat, expected: Option<Digest>, count: nat)
    requires SameJournal(session, s, t)
    ensures ReadHistory(s, session, revision, expected, count) == ReadHistory(t, session, revision, expected, count)
  {
    hide Pad16;
    if revision > 0 {
      assert Own(session, RevKey(session, revision));
      var item := ReadRecord(Get(s, RevKey(session, revision)), session, revision, expected);
      if item.Ok? {
        HistoryFrame(session, s, t, revision - 1, item.value.previousDigest, count + 1);
      }
    }
  }

  lemma ScanFrame(session: string, s: Store, t: Store, after: Option<nat>)
    requires SameJournal(session, s, t)
    requires ScanFinds(s, session, after)
    ensures ScanFinds(t, session, after)
  {
    hide Pad16;
    var key :| key in s && key.RevisionKey? && key.session == session
      && (after.Some? ==> LexLess(Pad16(after.value), key.suffix));
    assert Own(session, key);
    assert Get(s, key) == Get(t, key);
  }

  /** Other sessions' writes cannot change what a session's journal reads as. */
  lemma ReadFrame(session: string, s: Store, t: Store)
    requires SameJournal(session, s, t)
    ensures ReadJournal(s, session) == ReadJournal(t, session)
  {
    hide Pad16, ReadHistory, FirstFault;
    assert Own(session, HeadKey(session)) && Own(session, EnrollmentKey(session));
    var afters := if Get(s, HeadKey(session)).Some? && ParseHead(Get(s, HeadKey(session)).value).Some?
                  then Some(ParseHead(Get(s, HeadKey(session)).value).value.revision) else None;
    assert ScanFinds(s, session, None) == ScanFinds(t, session, None) by {
      if ScanFinds(s, session, None) { ScanFrame(session, s, t, None); }
      if ScanFinds(t, session, None) { ScanFrame(session, t, s, None); }
    }
    if afters.Some? {
      var head := ParseHead(Get(s, HeadKey(session)).value).value;
      assert ScanFinds(s, session, Some(head.revision)) == ScanFinds(t, session, Some(head.revision)) by {
        if ScanFinds(s, session, Some(head.revision)) { ScanFrame(session, s, t, Some(head.revision)); }
        if ScanFinds(t, session, Some(head.revision)) { ScanFrame(session, t, s, Some(head.revision)); }
      }
      HistoryFrame(session, s, t, head.revision, Some(head.digest), 0);
    }
  }

  // ---- How a journal grows ----

  function Rank(head: Option<Value>): int {
    if head.Some? && head.value.HeadValue? then head.value.head.revision else 0
  }

  /**
   * Everything a run may do to the session's keys: keep every record and the marker,
   * move the head up only, and under one head add at most the next revision.
   */
  ghost predicate Grows(session: string, s: Store, t: Store) {
    && (forall suffix {:trigger RevisionKey(session, suffix)} :: Get(s, RevisionKey(session, suffix)).Some? ==>
          Get(t, RevisionKey(session, suffix)) == Get(s, RevisionKey(session, suffix)))
    && (Get(s, EnrollmentKey(session)).Some? ==> Get(t, EnrollmentKey(session)) == Get(s, EnrollmentKey(session)))
    && (var p, q := Get(s, HeadKey(session)), Get(t, HeadKey(session));
        if p == q then
          0 <= Rank(p) <= MAX_REVISIONS ==>
            forall suffix {:trigger RevisionKey(session, suffix)} ::
              Get(s, RevisionKey(session, suffix)).None? && Get(t, RevisionKey(session, suffix)).Some? ==>
                suffix == Pad16(Rank(p) + 1)
        else Rank(p) < Rank(q))
  }

  lemma GrowsTransitive(session: string, s: Store, t: Store, u: Store)
    requires Grows(session, s, t) && Grows(session, t, u)
    ensures Grows(session, s, u)
  {
    hide Pad16;
    if Get(s, HeadKey(session)) == Get(u, HeadKey(session)) {
      assert Get(s, HeadKey(session)) == Get(t, HeadKey(session));
    }
  }

  lemma SameGrows(session: string, s: Store, t: Store)
    requires SameJournal(session, s, t)
    ensures Grows(session, s, t)
  {
    hide Pad16;
    assert Own(session, HeadKey(session)) && Own(session, EnrollmentKey(session));
    assert forall suffix {:trigger RevisionKey(session, suffix)} :: Own(session, RevisionKey(session, suffix));
  }

  lemma WriteGrows(s: Store, session: string, h: seq<Revision>, record: Revision, k: nat)
    requires Stored(s, session, h) && |h| <= MAX_REVISIONS
    requires record.sessionId == session && record.revision == |h| + 1
    requires k < WriteCount(record)
    ensures Grows(session, After(s, record, k), After(s, record, k + 1))
  {
    hide Pad16;
    if Get(s, RevKey(session, |h| + 1)).Some? {
      ScanExtends(s, session, |h|);
    }
  }

  lemma StepGrows(session: string, a: System, b: System)
    requires Sound(session, a) && Step(session, a, b)
    ensures Grows(session, a.store, b.store)
  {
    hide Pad16, ReadJournal, PlanCommit, Grows, After, Stored;
    if Writes(session, a, b) {
      var w := a.writer;
      var input: CommitInput, authorize: Authorize :|
        input.sessionId == session && PlanCommit(w.base, input, authorize) == Ok(w.record);
      var h := PlannedRecord(w.base, input, authorize);
      WriteGrows(w.base, session, h, w.record, w.done);
      var before, after := After(w.base, w.record, w.done), After(w.base, w.record, w.done + 1);
      WriteFollowsAfter(w.base, w.record, w.done);
      assert SameJournal(session, after, b.store);
      SameGrows(session, a.store, before);
      SameGrows(session, after, b.store);
      GrowsTransitive(session, a.store, before, after);
      GrowsTransitive(session, a.store, after, b.store);
    } else {
      SameGrows(session, a.store, b.store);
    }
  }

  // ---- Runs ----

  lemma {:induction false} RunSound(session: string, run: seq<System>, i: nat)
    requires IsRun(session, run) && Sound(session, run[0]) && i < |run|
    ensures Sound(session, run[i])
  {
    if i > 0 {
      RunSound(session, run, i - 1);
      assert StepAt(session, run, i - 1);
      SoundStep(session, run[i - 1], run[i]);
    }
  }

  lemma {:induction false} RunGrows(session: string, run: seq<System>, i: nat, j: nat)
    requires IsRun(session, run) && Sound(session, run[0]) && i <= j < |run|
    ensures Grows(session, run[i].store, run[j].store)
    decreases j - i
  {
    hide Grows, Step;
    if i == j {
      SameGrows(session, run[i].store, run[j].store);
    } else {
      RunGrows(session, run, i, j - 1);
      RunSound(session, run, j - 1);
      assert StepAt(session, run, j - 1);
      StepGrows(session, run[j - 1], run[j]);
      GrowsTransitive(session, run[i].store, run[j - 1].store, run[j].store);
    }
  }

  /**
   * Committed histories only grow by suffix: whatever a reader accepts at one
   * instant of a run is a prefix of what any later reader accepts, for any number
   * of commits, crashes and foreign writes in between and any initial store.
   */
  lemma CommittedHistoryIsPrefix(
    session: string, run: seq<System>, i: nat, j: nat, before: Journal, after: Journal)
    requires IsRun(session, run) && Sound(session, run[0]) && i <= j < |run|
    requires ReadJournal(run[i].store, session) == Ok(before)
    requires ReadJournal(run[j].store, session) == Ok(after)
    ensures before.history <= after.history
  {
    hide Pad16, ReadJournal, IsRun;
    RunGrows(session, run, i, j);
    ReadIffStored(run[i].store, session, before);
    ReadIffStored(run[j].store, session, after);
    var h, g := before.history, after.history;
    assert |h| <= |g|;
    forall k | 0 <= k < |h| ensures h[k] == g[k] {
      assert Get(run[i].store, RevKey(session, k + 1)) == Some(RevisionValue(h[k]));
      assert Get(run[j].store, RevKey(session, k + 1)) == Some(RevisionValue(g[k]));
    }
  }

  /** What readers see while a writer holds the lock: the base journal, then nothing. */
  lemma BusyReads(session: string, a: System)
    requires Sound(session, a) && a.writer.Busy?
    ensures ReadJournal(a.writer.base, session).Ok?
    ensures ReadJournal(a.store, session) ==
      (if a.writer.done == 0 then ReadJournal(a.writer.base, session)
       else Err(if ReadJournal(a.writer.base, session).value.history == [] then MissingHead else PendingTransition))
  {
    hide Pad16, ReadJournal, PlanCommit, After;
    var w := a.writer;
    var input: CommitInput, authorize: Authorize :|
      input.sessionId == session && PlanCommit(w.base, input, authorize) == Ok(w.record);
    CommitIsAtomic(w.base, input, authorize, w.done);
    ReadFrame(session, a.store, After(w.base, w.record, w.done));
    PlanReads(w.base, input, authorize);
  }

  lemma PlanReads(s: Store, input: CommitInput, authorize: Authorize)
    requires PlanCommit(s, input, authorize).Ok?
    ensures ReadJournal(s, input.sessionId).Ok?
  {
    hide ReadJournal;
  }

  /** Once no writer is at work and no reader accepts the journal, nothing ever changes it. */
  lemma {:induction false} TornJournalIsFinal(session: string, run: seq<System>, j: nat)
    requires IsRun(session, run) && j < |run|
    requires run[0].writer == Idle && ReadJournal(run[0].store, session).Err?
    ensures run[j].writer == Idle
    ensures SameJournal(session, run[0].store, run[j].store)
    ensures ReadJournal(run[j].store, session) == ReadJournal(run[0].store, session)
  {
    hide ReadJournal, PlanCommit, After;
    if j > 0 {
      TornJournalIsFinal(session, run, j - 1);
      var a, b := run[j - 1], run[j];
      assert StepAt(session, run, j - 1);
      if Begins(session, a, b) {
        var input: CommitInput, authorize: Authorize :|
          input.sessionId == session && PlanCommit(a.store, input, authorize) == Ok(b.writer.record);
        PlanReads(a.store, input, authorize);
        assert false;
      }
      ReadFrame(session, a.store, b.store);
    }
  }

  /** Fail closed: after a writer died between its first and last write, every later read is blocked. */
  lemma TornCommitFailsClosed(session: string, run: seq<System>, i: nat, j: nat)
    requires IsRun(session, run) && Sound(session, run[0]) && i + 1 <= j < |run|
    requires run[i].writer.Busy? && run[i].writer.done > 0 && Dies(run[i], run[i + 1])
    ensures ReadJournal(run[j].store, session).Err?
    ensures run[j].writer == Idle
    ensures SameJournal(session, run[i].store, run[j].store)
  {
    hide ReadJournal, Step, Sound;
    RunSound(session, run, i);
    BusyReads(session, run[i]);
    var rest := run[i + 1..];
    forall k | 0 <= k < |rest| - 1 ensures StepAt(session, rest, k) {
      assert StepAt(session, run, i + 1 + k);
    }
    TornJournalIsFinal(session, rest, j - (i + 1));
  }
}
