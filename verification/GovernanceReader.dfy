/**
 * The lock-free reader as separate reads that interleave with writers, and its
 * linearizability (src/adapters/governance-activation.ts, readJournal).
 */
module GovernanceReader {
  import opened Results
  import opened PaddedKeys
  import opened GovernanceRecords
  import opened GovernanceJournal
  import opened GovernanceRuns

  /** Where the reader stands between two reads of the store. */
  datatype Reader =
    | Starting
    | GotHead(raw: Option<Value>)
    | GotMarker(raw: Option<Value>, marker: Option<Value>)
    | Walking(head: Head, marker: Option<Value>, revision: nat, expected: Option<Digest>, records: seq<Revision>)
    | Rechecking(head: Head, history: seq<Revision>)
    | Done(result: Result<Journal, Blocked>)

  /** The reader's next step; each step reads the store at most once. */
  function Advance(session: string, s: Store, r: Reader): Reader {
    match r
    case Starting => GotHead(Get(s, HeadKey(session)))
    case GotHead(raw) => GotMarker(raw, Get(s, EnrollmentKey(session)))
    case GotMarker(None, marker) =>
      Done(if marker.Some? || ScanFinds(s, session, None) then Err(MissingHead) else Ok(Journal(None, [])))
    case GotMarker(Some(raw), marker) =>
      (match ParseHead(raw)
       case None => Done(Err(ForeignHead))
       case Some(head) =>
         if head.sessionId != session then Done(Err(ForeignHead))
         else if ScanFinds(s, session, Some(head.revision)) then Done(Err(PendingTransition))
         else Walking(head, marker, head.revision, Some(head.digest), []))
    case Walking(head, marker, revision, expected, records) =>
      if revision > 0 then
        if |records| >= MAX_REVISIONS then Done(Err(BoundExceeded))
        else
          match ReadRecord(Get(s, RevKey(session, revision)), session, revision, expected)
          case Err(reason) => Done(Err(reason))
          case Ok(record) => Walking(head, marker, revision - 1, record.previousDigest, [record] + records)
      else if !IsEnrollmentBound(marker, session, First(records)) then Done(Err(UnboundEnrollment))
      else if FirstFault(records, |records|).Some? then Done(Err(FirstFault(records, |records|).value))
      else Rechecking(head, records)
    case Rechecking(head, history) =>
      Done(if Get(s, HeadKey(session)) == Some(HeadValue(head)) then Ok(Journal(Some(head), history))
           else Err(ChangedDuringRead))
    case Done(_) => r
  }

  /** What the reader returns when the store stays as it is. */
  function Finish(session: string, s: Store, r: Reader): Result<Journal, Blocked>
    decreases (match r case Starting => 5 case GotHead(_) => 4 case GotMarker(_, _) => 3
                       case Walking(_, _, _, _, _) => 2 case Rechecking(_, _) => 1 case Done(_) => 0),
              if r.Walking? then r.revision else 0
  {
    if r.Done? then r.result else Finish(session, s, Advance(session, s, r))
  }

  /** On an unchanging store the step-by-step reader is the reader function. */
  lemma QuietReadIsReadJournal(session: string, s: Store)
    ensures Finish(session, s, Starting) == ReadJournal(s, session)
  {
    hide Pad16;
    var raw := Get(s, HeadKey(session));
    var marker := Get(s, EnrollmentKey(session));
    var marked := GotMarker(raw, marker);
    calc {
      Finish(session, s, Starting);
      Finish(session, s, GotHead(raw));
      Finish(session, s, marked);
      Finish(session, s, Advance(session, s, marked));
    }
    if raw.Some? && ParseHead(raw.value).Some? && Advance(session, s, marked).Walking? {
      var head := ParseHead(raw.value).value;
      QuietWalk(session, s, head, marker, head.revision, Some(head.digest), []);
      var older := ReadHistory(s, session, head.revision, Some(head.digest), 0);
      assert older.Ok? ==> older.value + [] == older.value;
    }
  }

  lemma {:induction false} QuietWalk(
    session: string, s: Store, head: Head, marker: Option<Value>, revision: nat, expected: Option<Digest>,
    records: seq<Revision>)
    requires Get(s, HeadKey(session)) == Some(HeadValue(head))
    ensures Finish(session, s, Walking(head, marker, revision, expected, records)) ==
      (match ReadHistory(s, session, revision, expected, |records|)
       case Err(reason) => Err(reason)
       case Ok(older) =>
         var h := older + records;
         if !IsEnrollmentBound(marker, session, First(h)) then Err(UnboundEnrollment)
         else if FirstFault(h, |h|).Some? then Err(FirstFault(h, |h|).value)
         else Ok(Journal(Some(head), h)))
    decreases revision
  {
    hide Pad16, FirstFault;
    var r := Walking(head, marker, revision, expected, records);
    if revision == 0 {
      assert [] + records == records;
      if Advance(session, s, r).Rechecking? {
        assert Finish(session, s, r) == Finish(session, s, Advance(session, s, Rechecking(head, records)));
      }
    } else if |records| < MAX_REVISIONS {
      var item := ReadRecord(Get(s, RevKey(session, revision)), session, revision, expected);
      if item.Ok? {
        QuietWalk(session, s, head, marker, revision - 1, item.value.previousDigest, [item.value] + records);
        var older := ReadHistory(s, session, revision - 1, item.value.previousDigest, |records| + 1);
        if older.Ok? {
          assert older.value + ([item.value] + records) == (older.value + [item.value]) + records;
        }
      }
    }
  }

  // ---- Interleaving ----

  datatype Config = Config(system: System, reader: Reader)

  ghost predicate ConfigStep(session: string, trace: seq<Config>, i: nat)
    requires i + 1 < |trace|
  {
    var a, b := trace[i], trace[i + 1];
    || (Step(session, a.system, b.system) && a.reader == b.reader)
    || (a.system == b.system && b.reader == Advance(session, a.system.store, a.reader))
  }

  /** Writer, crash and foreign steps in any order with the reader's own steps. */
  ghost predicate IsTrace(session: string, trace: seq<Config>) {
    && trace != [] && trace[0].reader == Starting && Sound(session, trace[0].system)
    && forall i :: 0 <= i < |trace| - 1 ==> ConfigStep(session, trace, i)
  }

  function Systems(trace: seq<Config>): (run: seq<System>)
    ensures |run| == |trace|
    ensures forall i :: 0 <= i < |trace| ==> run[i] == trace[i].system
  {
    seq(|trace|, i requires 0 <= i < |trace| => trace[i].system)
  }

  lemma SystemsRun(session: string, trace: seq<Config>)
    requires IsTrace(session, trace)
    ensures IsRun(session, Systems(trace))
  {
    hide Step;
    var run := Systems(trace);
    forall i | 0 <= i < |run| - 1 ensures StepAt(session, run, i) {
      assert ConfigStep(session, trace, i);
      StutterStep(session, run[i]);
    }
  }

  lemma StutterStep(session: string, a: System)
    ensures Step(session, a, a)
  {
    assert Elsewhere(session, a, a);
  }

  /** The records read so far: the newest of a history whose head carries `digest`. */
  ghost predicate ReadSoFar(
    session: string, s: Store, head: Head, revision: nat, expected: Option<Digest>, records: seq<Revision>)
  {
    && |records| + revision == head.revision && |records| <= MAX_REVISIONS
    && (forall x :: 0 <= x < |records| ==>
          WellFormed(records[x]) && records[x].sessionId == session && records[x].revision == revision + 1 + x)
    && (forall x {:trigger Before(records, x)} :: 0 <= x < |records| ==> LinksTo(Before(records, x), records[x]))
    && (if records == [] then expected == Some(head.digest)
        else expected == records[0].previousDigest && head.digest == RecordDigest(records[|records| - 1]))
    && (forall x :: 0 <= x < |records| ==>
          Get(s, RevKey(session, revision + 1 + x)) == Some(RevisionValue(records[x])))
  }

  /** What the reader has learnt, dated: i is the instant of its head read, j of its last scan or marker read. */
  ghost predicate Knows(session: string, trace: seq<Config>, k: nat, i: nat, j: nat)
    requires i <= j <= k < |trace|
  {
    var atHead, atScan, now := trace[i].system.store, trace[j].system.store, trace[k].system.store;
    match trace[k].reader
    case Starting => true
    case GotHead(raw) => Get(atHead, HeadKey(session)) == raw
    case GotMarker(raw, marker) =>
      Get(atHead, HeadKey(session)) == raw && Get(atScan, EnrollmentKey(session)) == marker
    case Walking(head, marker, revision, expected, records) =>
      && ParseHead(HeadValue(head)).Some? && head.sessionId == session
      && Get(atHead, HeadKey(session)) == Some(HeadValue(head))
      && (marker.Some? ==> Get(atScan, EnrollmentKey(session)) == marker)
      && !ScanFinds(atScan, session, Some(head.revision))
      && ReadSoFar(session, now, head, revision, expected, records)
    case Rechecking(head, history) =>
      && ParseHead(HeadValue(head)).Some? && head.sessionId == session
      && Get(atHead, HeadKey(session)) == Some(HeadValue(head))
      && IsEnrollmentBound(Get(atScan, EnrollmentKey(session)), session, First(history))
      && !ScanFinds(atScan, session, Some(head.revision))
      && (exists expected :: ReadSoFar(session, now, head, 0, expected, history))
      && FirstFault(history, |history|).None?
    case Done(Ok(journal)) => ReadJournal(atHead, session) == Ok(journal)
    case Done(Err(_)) => true
  }

  lemma ReadSoFarKept(
    session: string, s: Store, t: Store, head: Head, revision: nat, expected: Option<Digest>, records: seq<Revision>)
    requires Grows(session, s, t) && ReadSoFar(session, s, head, revision, expected, records)
    ensures ReadSoFar(session, t, head, revision, expected, records)
  {
    hide Pad16, WellFormed, LinksTo;
    forall x | 0 <= x < |records|
      ensures Get(t, RevKey(session, revision + 1 + x)) == Some(RevisionValue(records[x]))
    {
      assert Get(s, RevKey(session, revision + 1 + x)) == Some(RevisionValue(records[x]));
    }
  }

  lemma ReadSoFarExtends(
    session: string, s: Store, head: Head, revision: nat, expected: Option<Digest>, records: seq<Revision>, r: Revision)
    requires ReadSoFar(session, s, head, revision, expected, records) && revision > 0 && |records| < MAX_REVISIONS
    requires ReadRecord(Get(s, RevKey(session, revision)), session, revision, expected) == Ok(r)
    ensures ReadSoFar(session, s, head, revision - 1, r.previousDigest, [r] + records)
  {
    hide Pad16, WellFormed;
    var longer := [r] + records;
    forall x {:trigger Before(longer, x)} | 0 <= x < |longer| ensures LinksTo(Before(longer, x), longer[x]) {
      if x > 1 {
        assert LinksTo(Before(records, x - 1), records[x - 1]);
      }
    }
    forall x | 0 <= x < |longer|
      ensures Get(s, RevKey(session, (revision - 1) + 1 + x)) == Some(RevisionValue(longer[x]))
    {
      if x > 0 {
        assert Get(s, RevKey(session, revision + 1 + (x - 1))) == Some(RevisionValue(records[x - 1]));
      }
    }
  }

  /** With the head unchanged since the scan, every record read later was stored at the scan. */
  lemma HeldAtScan(
    session: string, atHead: Store, atScan: Store, now: Store, head: Head, expected: Option<Digest>, h: seq<Revision>)
    requires Grows(session, atHead, atScan) && Grows(session, atScan, now)
    requires Get(atHead, HeadKey(session)) == Get(now, HeadKey(session)) == Some(HeadValue(head))
    requires ReadSoFar(session, now, head, 0, expected, h) && head.sessionId == session && h != []
    requires IsEnrollmentBound(Get(atScan, EnrollmentKey(session)), session, First(h))
    requires !ScanFinds(atScan, session, Some(head.revision))
    ensures Stored(atScan, session, h) && Some(head) == HeadOf(session, h)
  {
    hide Pad16;
    assert Get(atScan, HeadKey(session)) == Some(HeadValue(head));
    forall x | 0 <= x < |h| ensures Get(atScan, RevKey(session, x + 1)) == Some(RevisionValue(h[x])) {
      assert Get(now, RevKey(session, 0 + 1 + x)) == Some(RevisionValue(h[x]));
      PaddedOrder(x + 1, head.revision + 1);
    }
  }

  /** An empty store seen by separate reads was empty when the head was read. */
  lemma EmptyAtHead(session: string, atHead: Store, atMarker: Store, now: Store)
    requires Grows(session, atHead, atMarker) && Grows(session, atHead, now)
    requires Get(atHead, HeadKey(session)).None? && Get(atMarker, EnrollmentKey(session)).None?
    requires !ScanFinds(now, session, None)
    ensures ReadJournal(atHead, session) == Ok(Journal(None, []))
  {
    if ScanFinds(atHead, session, None) {
      ScanKept(session, atHead, now);
    }
  }

  lemma ScanKept(session: string, s: Store, t: Store)
    requires Grows(session, s, t) && ScanFinds(s, session, None)
    ensures ScanFinds(t, session, None)
  {
    hide Pad16;
    var key :| key in s && key.RevisionKey? && key.session == session;
    assert Get(s, RevisionKey(session, key.suffix)).Some?;
    assert key in t;
  }

  /** Between the reader's first read and its answer. */
  predicate Reading(r: Reader) {
    !r.Starting? && !r.Done?
  }

  /** Both instants lie inside the read. */
  ghost predicate Inside(trace: seq<Config>, k: nat, i: nat, j: nat)
    requires i <= j <= k < |trace|
  {
    trace[k].reader.Starting? || (Reading(trace[i].reader) && Reading(trace[j].reader))
  }

  lemma {:induction false} ReaderKnows(session: string, trace: seq<Config>, k: nat) returns (i: nat, j: nat)
    requires IsTrace(session, trace) && k < |trace|
    ensures i <= j <= k && Knows(session, trace, k, i, j) && Inside(trace, k, i, j)
  {
    hide Pad16, ReadJournal, Grows, Step, ReadSoFar, FirstFault, IsEnrollmentBound, Stored, ReadRecord;
    if k == 0 {
      return 0, 0;
    }
    i, j := ReaderKnows(session, trace, k - 1);
    SystemsRun(session, trace);
    var run := Systems(trace);
    RunGrows(session, run, i, j);
    RunGrows(session, run, j, k - 1);
    RunGrows(session, run, k - 1, k);
    RunGrows(session, run, i, k - 1);
    RunGrows(session, run, j, k);
    assert ConfigStep(session, trace, k - 1);
    var a, b := trace[k - 1], trace[k];
    var s := a.system.store;
    if a.reader == b.reader {
      if a.reader.Walking? {
        ReadSoFarKept(session, s, b.system.store, a.reader.head, a.reader.revision, a.reader.expected, a.reader.records);
      } else if a.reader.Rechecking? {
        var expected :| ReadSoFar(session, s, a.reader.head, 0, expected, a.reader.history);
        ReadSoFarKept(session, s, b.system.store, a.reader.head, 0, expected, a.reader.history);
      }
    } else {
      i, j := Progress(session, trace, k, i, j);
    }
  }

  /** One step of the reader itself. */
  lemma Progress(session: string, trace: seq<Config>, k: nat, i: nat, j: nat) returns (i': nat, j': nat)
    requires 0 < k < |trace| && i <= j <= k - 1 && Knows(session, trace, k - 1, i, j) && Inside(trace, k - 1, i, j)
    requires trace[k].system == trace[k - 1].system
    requires trace[k].reader == Advance(session, trace[k - 1].system.store, trace[k - 1].reader)
    requires trace[k].reader != trace[k - 1].reader
    requires Grows(session, trace[i].system.store, trace[j].system.store)
    requires Grows(session, trace[j].system.store, trace[k - 1].system.store)
    requires Grows(session, trace[i].system.store, trace[k - 1].system.store)
    ensures i' <= j' <= k && Knows(session, trace, k, i', j') && Inside(trace, k, i', j')
  {
    hide Pad16, ReadJournal, FirstFault, Stored, ReadRecord, Grows, ReadSoFar;
    i', j' := i, j;
    var s := trace[k - 1].system.store;
    match trace[k - 1].reader {
      case Starting => i', j' := k, k;
      case GotHead(_) => j' := k;
      case GotMarker(None, marker) =>
        if trace[k].reader.result.Ok? {
          EmptyAtHead(session, trace[i].system.store, trace[j].system.store, s);
        }
      case GotMarker(Some(_), marker) =>
        MarkerKept(session, trace[j].system.store, s);
        if trace[k].reader.Walking? {
          j' := k;
          assert ReadSoFar(session, s, trace[k].reader.head, trace[k].reader.revision, trace[k].reader.expected, []) by {
            StartReading(session, s, trace[k].reader.head);
          }
        }
      case Walking(head, marker, revision, expected, records) =>
        if trace[k].reader.Walking? {
          ReadSoFarExtends(session, s, head, revision, expected, records, trace[k].reader.records[0]);
          assert trace[k].reader.records == [trace[k].reader.records[0]] + records;
        }
      case Rechecking(head, history) =>
        if trace[k].reader.result.Ok? {
          var expected :| ReadSoFar(session, s, head, 0, expected, history);
          ReadingLength(session, s, head, expected, history);
          HeldAtScan(session, trace[i].system.store, trace[j].system.store, s, head, expected, history);
          i' := j;
          AcceptedAtScan(session, trace[j].system.store, Journal(Some(head), history));
        }
      case Done(_) =>
    }
  }

  lemma MarkerKept(session: string, s: Store, t: Store)
    requires Grows(session, s, t)
    ensures Get(s, EnrollmentKey(session)).Some? ==> Get(t, EnrollmentKey(session)) == Get(s, EnrollmentKey(session))
  {
  }

  lemma StartReading(session: string, s: Store, head: Head)
    requires head.revision > 0
    ensures ReadSoFar(session, s, head, head.revision, Some(head.digest), [])
  {
  }

  lemma ReadingLength(session: string, s: Store, head: Head, expected: Option<Digest>, h: seq<Revision>)
    requires ReadSoFar(session, s, head, 0, expected, h)
    ensures |h| == head.revision <= MAX_REVISIONS
  {
  }

  lemma AcceptedAtScan(session: string, s: Store, journal: Journal)
    requires Stored(s, session, journal.history) && journal.head == HeadOf(session, journal.history)
    requires |journal.history| <= MAX_REVISIONS && FirstFault(journal.history, |journal.history|).None?
    ensures ReadJournal(s, session) == Ok(journal)
  {
    hide Pad16, ReadJournal, Stored;
    FaultFree(journal.history, |journal.history|);
    assert journal.history[..|journal.history|] == journal.history;
    ReadIffStored(s, session, journal);
  }

  /**
   * Linearizability: whatever the interleaving with commits, crashes and foreign
   * writes, and whatever the initial store, a reader that is not blocked returns
   * the journal that was committed at some instant after its first read of the store
   * and before its answer.
   */
  lemma ReadIsLinearizable(session: string, trace: seq<Config>, journal: Journal)
    requires IsTrace(session, trace)
    requires trace[|trace| - 1].reader == Done(Ok(journal))
    ensures exists i ::
      0 <= i < |trace| && Reading(trace[i].reader) && ReadJournal(trace[i].system.store, session) == Ok(journal)
  {
    hide ReadJournal, Knows;
    var i, j := ReaderKnows(session, trace, |trace| - 1);
    assert ReadJournal(trace[i].system.store, session) == Ok(journal) by {
      DoneKnows(session, trace, |trace| - 1, i, j, journal);
    }
  }

  lemma DoneKnows(session: string, trace: seq<Config>, k: nat, i: nat, j: nat, journal: Journal)
    requires i <= j <= k < |trace| && Knows(session, trace, k, i, j)
    requires trace[k].reader == Done(Ok(journal))
    ensures ReadJournal(trace[i].system.store, session) == Ok(journal)
  {
    hide ReadJournal;
  }
}
