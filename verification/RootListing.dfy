/**
 * Resolving one session's authority and listing all active roots page by page
 * (src/adapters/governance-activation.ts:92-146, 273-292).
 */
module RootListing {
  import opened Results
  import opened Strings
  import opened PaddedKeys
  import opened GovernanceRecords
  import J = GovernanceJournal
  import R = GovernanceReader

  // ---- Resolution ----

  datatype Resolution = AtRest(last: Option<Revision>) | Authority(record: Revision) | Blocked(reason: J.Blocked)

  /** What a read of the journal resolves to. */
  function Judged(read: Result<J.Journal, J.Blocked>): Resolution {
    match read
    case Err(reason) => Blocked(reason)
    case Ok(journal) =>
      var record := J.Last(journal.history);
      if record.None? || record.value.status == Status.Inactive then AtRest(record)
      else if record.value.status != Status.Active then Blocked(J.Recovering(record.value.status))
      else Authority(record.value)
  }

  /** resolveGovernanceActivation. */
  function Resolve(s: J.Store, session: string): Resolution {
    Judged(J.ReadJournal(s, session))
  }

  function Resolver(s: J.Store): string -> Resolution {
    session => Resolve(s, session)
  }

  /** A session is active exactly when its keys hold a valid history whose last record is active. */
  lemma ActiveIff(s: J.Store, session: string, record: Revision)
    ensures Resolve(s, session) == Authority(record) <==>
      exists h: seq<Revision> ::
        J.Stored(s, session, h) && J.ValidHistory(h) && J.Last(h) == Some(record) && record.status == Status.Active
  {
    hide J.ReadJournal, J.Stored, J.ValidHistory;
    if Resolve(s, session) == Authority(record) {
      J.ReadIffStored(s, session, J.ReadJournal(s, session).value);
    }
    if h: seq<Revision> :|
      J.Stored(s, session, h) && J.ValidHistory(h) && J.Last(h) == Some(record) && record.status == Status.Active
    {
      J.ReadIffStored(s, session, J.Journal(J.HeadOf(session, h), h));
    }
  }

  /** What a readable history resolves to, by the status of its last record. */
  lemma ResolveAnswers(s: J.Store, session: string, h: seq<Revision>)
    requires J.ReadJournal(s, session) == Ok(J.Journal(J.HeadOf(session, h), h))
    ensures Resolve(s, session) ==
      if h == [] then AtRest(None)
      else match h[|h| - 1].status
           case Inactive => AtRest(Some(h[|h| - 1]))
           case Active => Authority(h[|h| - 1])
           case Activating => Blocked(J.Recovering(Status.Activating))
           case Ending => Blocked(J.Recovering(Status.Ending))
  {
    hide J.ReadJournal;
  }

  /** Wherever a commit is cut off, resolution gives the old answer, the new answer or blocked. */
  lemma ResolutionAfterCut(s: J.Store, input: J.CommitInput, authorize: J.Authorize, k: nat)
    requires J.PlanCommit(s, input, authorize).Ok?
    ensures var record := J.PlanCommit(s, input, authorize).value;
      var before, after := Resolve(s, input.sessionId), Resolve(J.After(s, record, k), input.sessionId);
      && (k == 0 ==> after == before)
      && (0 < k < J.WriteCount(record) ==> after.Blocked?)
      && (k >= J.WriteCount(record) ==>
            after.Blocked?
            || (record.status == Status.Active && after == Authority(record))
            || (record.status == Status.Inactive && after == AtRest(Some(record))))
      && (after.Authority? ==> after == before || after == Authority(record))
  {
    hide Pad16, J.ReadJournal, J.PlanCommit, J.After, J.Stored, Admissible, NoReplay;
    J.CommitIsAtomic(s, input, authorize, k);
  }

  // ---- The catalogue ----

  datatype Entry = Entry(key: J.Key, value: J.Value)

  datatype Page = Page(entries: seq<Entry>, next: Option<string>) | Unreadable

  /** The store's answer to a scan of the authority prefix after a cursor. */
  type Scan = Option<string> -> Page

  datatype Fault = Refused(reason: J.Blocked) | InvalidHead | CursorRepeated | ReadFailed

  datatype Listing = Listing(records: seq<Revision>, errors: seq<Fault>)

  /** key.endsWith('/head'): session keys are hashes, so only a head's own key, a revision suffix or a foreign key can. */
  predicate NamesHead(key: J.Key) {
    match key
    case HeadKey(_) => true
    case RevisionKey(_, suffix) => suffix == "head" || EndsWith(suffix, "/head")
    case EnrollmentKey(_) => false
    case OtherKey(text) => EndsWith(text, "/head")
  }

  /** resolveCatalogueHead: the session of a head stored under its own key, resolved afresh. */
  function ResolveHead(item: Entry, resolve: string -> Resolution): Result<Resolution, Fault> {
    var head := J.ParseHead(item.value);
    if head.None? || item.key != J.HeadKey(head.value.sessionId) then Err(InvalidHead)
    else Ok(resolve(head.value.sessionId))
  }

  /** What one catalogue entry contributes. */
  function Contribution(item: Entry, resolve: string -> Resolution): Listing {
    if !NamesHead(item.key) then Listing([], [])
    else
      match ResolveHead(item, resolve)
      case Err(fault) => Listing([], [fault])
      case Ok(Blocked(reason)) => Listing([], [Refused(reason)])
      case Ok(AtRest(_)) => Listing([], [])
      case Ok(Authority(record)) => Listing(if record.sessionId == record.rootSessionId then [record] else [], [])
  }

  /** A key that only ends like a head's is reported as no head, whatever it holds; other keys are passed over. */
  lemma OddKeysAreReported(key: J.Key, value: J.Value, resolve: string -> Resolution)
    ensures key.EnrollmentKey? ==> Contribution(Entry(key, value), resolve) == Listing([], [])
    ensures key.RevisionKey? ==>
      Contribution(Entry(key, value), resolve) == Listing([],
        if key.suffix == "head" || (exists x: string :: key.suffix == x + "/head") then [InvalidHead] else [])
    ensures key.OtherKey? ==>
      Contribution(Entry(key, value), resolve) == Listing([],
        if exists x: string :: key.text == x + "/head" then [InvalidHead] else [])
    ensures key.HeadKey? && (!value.HeadValue? || value.head.sessionId != key.session) ==>
      Contribution(Entry(key, value), resolve) == Listing([], [InvalidHead])
  {
    if key.RevisionKey? { EndsIff(key.suffix, "/head"); }
    if key.OtherKey? { EndsIff(key.text, "/head"); }
    hide EndsWith;
  }

  lemma EndsIff(text: string, suffix: string)
    ensures EndsWith(text, suffix) <==> exists x: string :: text == x + suffix
  {
    if EndsWith(text, suffix) { assert text == text[..|text| - |suffix|] + suffix; }
    if x: string :| text == x + suffix { assert text[|text| - |suffix|..] == suffix; }
  }

  function Join(a: Listing, b: Listing): Listing {
    Listing(a.records + b.records, a.errors + b.errors)
  }

  function Collected(entries: seq<Entry>, resolve: string -> Resolution): Listing {
    if entries == [] then Listing([], [])
    else Join(Collected(entries[..|entries| - 1], resolve), Contribution(entries[|entries| - 1], resolve))
  }

  /** Every cursor the store hands out is one of finitely many, as with the keys of a store. */
  ghost predicate Cursors(scan: Scan, cursors: set<string>) {
    forall after: Option<string> :: scan(after).Page? && scan(after).next.Some? ==> scan(after).next.value in cursors
  }

  /** The pages from one cursor on. */
  ghost function Listed(
    scan: Scan, resolve: string -> Resolution, after: Option<string>, seen: set<string>, cursors: set<string>): Listing
    requires Cursors(scan, cursors)
    decreases cursors - seen
  {
    match scan(after)
    case Unreadable => Listing([], [ReadFailed])
    case Page(entries, next) =>
      var here := Collected(entries, resolve);
      if next.None? then here
      else if next.value in seen then Join(here, Listing([], [CursorRepeated]))
      else
        assert scan(after).next.value in cursors;
        Join(here, Listed(scan, resolve, next, seen + {next.value}, cursors))
  }

  lemma JoinAssociates(a: Listing, b: Listing, c: Listing)
    ensures Join(Join(a, b), c) == Join(a, Join(b, c))
    ensures Join(a, Listing([], [])) == a == Join(Listing([], []), a)
  {
    assert (a.records + b.records) + c.records == a.records + (b.records + c.records);
    assert (a.errors + b.errors) + c.errors == a.errors + (b.errors + c.errors);
  }

  /** The loop over the entries of one page. */
  method CollectPage(entries: seq<Entry>, resolve: string -> Resolution)
    returns (records: seq<Revision>, errors: seq<Fault>)
    ensures Listing(records, errors) == Collected(entries, resolve)
  {
    records, errors := [], [];
    for i := 0 to |entries|
      invariant Listing(records, errors) == Collected(entries[..i], resolve)
    {
      var item := entries[i];
      assert entries[..i + 1][..i] == entries[..i];
      if NamesHead(item.key) {
        match ResolveHead(item, resolve) {
          case Err(fault) => errors := errors + [fault];
          case Ok(Blocked(reason)) => errors := errors + [Refused(reason)];
          case Ok(AtRest(_)) =>
          case Ok(Authority(record)) =>
            if record.sessionId == record.rootSessionId { records := records + [record]; }
        }
      }
    }
    assert entries[..|entries|] == entries;
  }

  /** listActiveGovernanceRoots: ends on the last page, an unreadable page or a repeated cursor. */
  method ListActiveGovernanceRoots(scan: Scan, resolve: string -> Resolution, ghost cursors: set<string>)
    returns (records: seq<Revision>, errors: seq<Fault>)
    requires Cursors(scan, cursors)
    ensures Listing(records, errors) == Listed(scan, resolve, None, {}, cursors)
  {
    hide Collected;
    records, errors := [], [];
    var seen: set<string> := {};
    var after: Option<string> := None;
    var more := true;
    JoinAssociates(Listed(scan, resolve, None, {}, cursors), Listing([], []), Listing([], []));
    while more
      invariant Listed(scan, resolve, None, {}, cursors) ==
        if more then Join(Listing(records, errors), Listed(scan, resolve, after, seen, cursors))
        else Listing(records, errors)
      decreases more, cursors - seen
    {
      var page := scan(after);
      if page.Unreadable? {
        errors := errors + [ReadFailed];
        return;
      }
      ghost var before := Listing(records, errors);
      var pageRecords, pageErrors := CollectPage(page.entries, resolve);
      records, errors := records + pageRecords, errors + pageErrors;
      after := page.next;
      more := after.Some?;
      if more {
        ghost var here := Collected(page.entries, resolve);
        if after.value in seen {
          JoinAssociates(before, here, Listing([], [CursorRepeated]));
          errors := errors + [CursorRepeated];
          return;
        }
        assert after.value in cursors;
        seen := seen + {after.value};
        JoinAssociates(before, here, Listed(scan, resolve, after, seen, cursors));
      }
    }
  }

  // ---- A store that pages properly ----

  const LIMIT := 100

  /** The page of a catalogue from a position on; `cursor` names the positions. */
  function PageFrom(all: seq<Entry>, i: nat, cursor: nat -> string): Page
    requires i <= |all|
  {
    if |all| - i > LIMIT then Page(all[i..i + LIMIT], Some(cursor(i + LIMIT))) else Page(all[i..], None)
  }

  ghost predicate PagesOf(scan: Scan, all: seq<Entry>, cursor: nat -> string) {
    && scan(None) == PageFrom(all, 0, cursor)
    && (forall i: nat {:trigger cursor(i)} :: i <= |all| ==> scan(Some(cursor(i))) == PageFrom(all, i, cursor))
    && (forall i: nat, j: nat {:trigger cursor(i), cursor(j)} :: i < j <= |all| ==> cursor(i) != cursor(j))
  }

  lemma {:induction false} CollectedConcat(a: seq<Entry>, b: seq<Entry>, resolve: string -> Resolution)
    ensures Collected(a + b, resolve) == Join(Collected(a, resolve), Collected(b, resolve))
  {
    hide Contribution;
    if b == [] {
      assert a + b == a;
    } else {
      var n := |b| - 1;
      assert (a + b)[..|a + b| - 1] == a + b[..n];
      CollectedConcat(a, b[..n], resolve);
      var x, y, z := Collected(a, resolve), Collected(b[..n], resolve), Contribution(b[n], resolve);
      assert (x.records + y.records) + z.records == x.records + (y.records + z.records);
      assert (x.errors + y.errors) + z.errors == x.errors + (y.errors + z.errors);
    }
  }

  lemma {:induction false} PagesAreWhole(
    scan: Scan, resolve: string -> Resolution, all: seq<Entry>, cursor: nat -> string,
    i: nat, after: Option<string>, seen: set<string>, cursors: set<string>)
    requires Cursors(scan, cursors) && PagesOf(scan, all, cursor)
    requires i <= |all| && scan(after) == PageFrom(all, i, cursor)
    requires forall j: nat {:trigger cursor(j)} :: i < j <= |all| ==> cursor(j) !in seen
    ensures Listed(scan, resolve, after, seen, cursors) == Collected(all[i..], resolve)
    decreases |all| - i
  {
    hide Collected;
    if |all| - i > LIMIT {
      var k: nat := i + LIMIT;
      var next := cursor(k);
      assert scan(after).next == Some(next);
      assert forall j: nat {:trigger cursor(j)} :: k < j <= |all| ==> cursor(j) != next;
      PagesAreWhole(scan, resolve, all, cursor, k, Some(next), seen + {next}, cursors);
      assert all[i..] == all[i..k] + all[k..];
      CollectedConcat(all[i..k], all[k..], resolve);
    }
  }

  /** All entries of the store that a scan of the authority prefix can return, each key once. */
  ghost predicate Catalogue(s: J.Store, all: seq<Entry>) {
    && (forall i :: 0 <= i < |all| ==> all[i].key in s && s[all[i].key] == all[i].value)
    && (forall session: string {:trigger J.HeadKey(session)} ::
          J.HeadKey(session) in s ==> exists i :: 0 <= i < |all| && all[i].key == J.HeadKey(session))
    && (forall i, j :: 0 <= i < j < |all| ==> all[i].key != all[j].key)
  }

  /** An active root's head is stored under its own key. */
  lemma ActiveHasHead(s: J.Store, session: string)
    requires Resolve(s, session).Authority?
    ensures J.HeadKey(session) in s
    ensures J.ParseHead(s[J.HeadKey(session)]).Some? && J.ParseHead(s[J.HeadKey(session)]).value.sessionId == session
    ensures Resolve(s, session).record.sessionId == session
  {
    hide Pad16, J.ReadHistory, J.FirstFault, WellFormed, IsTransition;
    var journal := J.ReadJournal(s, session).value;
    J.ReadIffStored(s, session, journal);
  }

  /** The records contributed by the first n entries are those of their sessions' active roots. */
  lemma {:induction false} CollectedRecords(s: J.Store, entries: seq<Entry>, record: Revision)
    requires forall i :: 0 <= i < |entries| ==> entries[i].key in s && s[entries[i].key] == entries[i].value
    ensures record in Collected(entries, Resolver(s)).records <==>
      && record.sessionId == record.rootSessionId
      && Resolve(s, record.sessionId) == Authority(record)
      && exists i :: 0 <= i < |entries| && entries[i].key == J.HeadKey(record.sessionId)
  {
    hide Resolve;
    var resolve := Resolver(s);
    if entries != [] {
      var n := |entries| - 1;
      CollectedRecords(s, entries[..n], record);
      ContributedRecord(s, entries[n], record);
      assert (exists i :: 0 <= i < |entries| && entries[i].key == J.HeadKey(record.sessionId)) <==>
        (exists i :: 0 <= i < n && entries[..n][i].key == J.HeadKey(record.sessionId))
        || entries[n].key == J.HeadKey(record.sessionId);
    }
  }

  lemma ContributedRecord(s: J.Store, item: Entry, record: Revision)
    requires item.key in s && s[item.key] == item.value
    ensures record in Contribution(item, Resolver(s)).records <==>
      && record.sessionId == record.rootSessionId
      && Resolve(s, record.sessionId) == Authority(record)
      && item.key == J.HeadKey(record.sessionId)
  {
    hide Resolve;
    var head := J.ParseHead(item.value);
    if head.Some? && Resolve(s, head.value.sessionId).Authority? {
      ActiveHasHead(s, head.value.sessionId);
    }
    if Resolve(s, record.sessionId) == Authority(record) {
      ActiveHasHead(s, record.sessionId);
    }
  }

  ghost predicate EachSessionOnce(records: seq<Revision>) {
    forall i, j :: 0 <= i < j < |records| ==> records[i].sessionId != records[j].sessionId
  }

  lemma {:induction false} CollectedOnce(s: J.Store, entries: seq<Entry>)
    requires forall i :: 0 <= i < |entries| ==> entries[i].key in s && s[entries[i].key] == entries[i].value
    requires forall i, j :: 0 <= i < j < |entries| ==> entries[i].key != entries[j].key
    ensures EachSessionOnce(Collected(entries, Resolver(s)).records)
  {
    hide Resolve, EachSessionOnce;
    if entries == [] {
      NoneTwice();
    } else {
      var n := |entries| - 1;
      var resolve := Resolver(s);
      CollectedOnce(s, entries[..n]);
      var earlier, added := Collected(entries[..n], resolve).records, Contribution(entries[n], resolve).records;
      var records := Collected(entries, resolve).records;
      assert records == earlier + added && |added| <= 1;
      forall i | 0 <= i < |earlier| && added != [] ensures earlier[i].sessionId != added[0].sessionId {
        assert added[0] in added && earlier[i] in earlier;
        CollectedRecords(s, entries[..n], earlier[i]);
        ContributedRecord(s, entries[n], added[0]);
      }
      JoinedOnce(earlier, added);
    }
  }

  lemma NoneTwice()
    ensures EachSessionOnce([])
  {
  }

  lemma JoinedOnce(earlier: seq<Revision>, added: seq<Revision>)
    requires |added| <= 1
    requires EachSessionOnce(earlier)
    requires added != [] ==> forall i :: 0 <= i < |earlier| ==> earlier[i].sessionId != added[0].sessionId
    ensures EachSessionOnce(earlier + added)
  {
  }

  /**
   * Over a store that pages properly, the listing is complete and exact: it returns
   * every active root of the store once and nothing else, however many pages there
   * are, and reports no fault of the paging itself.
   */
  lemma ListingIsExact(s: J.Store, all: seq<Entry>, scan: Scan, cursor: nat -> string, cursors: set<string>)
    requires Catalogue(s, all) && Cursors(scan, cursors) && PagesOf(scan, all, cursor)
    ensures var listed := Listed(scan, Resolver(s), None, {}, cursors);
      && (forall record: Revision :: record in listed.records <==>
            Resolve(s, record.sessionId) == Authority(record) && record.sessionId == record.rootSessionId)
      && EachSessionOnce(listed.records)
      && ReadFailed !in listed.errors && CursorRepeated !in listed.errors
  {
    hide Resolve, Collected;
    var resolve := Resolver(s);
    assert scan(None) == PageFrom(all, 0, cursor);
    PagesAreWhole(scan, resolve, all, cursor, 0, None, {}, cursors);
    assert all[0..] == all;
    forall record: Revision
      ensures record in Collected(all, resolve).records <==>
        Resolve(s, record.sessionId) == Authority(record) && record.sessionId == record.rootSessionId
    {
      CollectedRecords(s, all, record);
      if Resolve(s, record.sessionId) == Authority(record) {
        ActiveHasHead(s, record.sessionId);
      }
    }
    CollectedOnce(s, all);
    CollectedFaults(all, resolve);
  }

  lemma {:induction false} CollectedFaults(entries: seq<Entry>, resolve: string -> Resolution)
    ensures ReadFailed !in Collected(entries, resolve).errors && CursorRepeated !in Collected(entries, resolve).errors
  {
    if entries != [] {
      CollectedFaults(entries[..|entries| - 1], resolve);
    }
  }

  // ---- Listing while others commit ----

  /** Each session found active was read step by step, while others committed, crashed and wrote. */
  ghost predicate ReadMeanwhile(resolve: string -> Resolution, traces: string -> seq<R.Config>) {
    forall session :: resolve(session).Authority? ==>
      && R.IsTrace(session, traces(session))
      && var last := traces(session)[|traces(session)| - 1].reader;
         last.Done? && resolve(session) == Judged(last.result)
  }

  /** The record was its session's authority at an instant inside the read of that session. */
  ghost predicate ActiveInside(trace: seq<R.Config>, session: string, record: Revision) {
    exists i :: 0 <= i < |trace| && R.Reading(trace[i].reader) && Resolve(trace[i].system.store, session) == Authority(record)
  }

  lemma ResolvedInside(resolve: string -> Resolution, traces: string -> seq<R.Config>, session: string, record: Revision)
    requires ReadMeanwhile(resolve, traces) && resolve(session) == Authority(record)
    ensures ActiveInside(traces(session), session, record)
  {
    var trace := traces(session);
    assert R.IsTrace(session, trace) && trace != [];
    hide J.ReadJournal, R.IsTrace;
    var last := trace[|trace| - 1].reader;
    R.ReadIsLinearizable(session, trace, last.result.value);
  }

  lemma {:induction false} CollectedWasResolved(entries: seq<Entry>, resolve: string -> Resolution, record: Revision)
    requires record in Collected(entries, resolve).records
    ensures exists session :: resolve(session) == Authority(record)
  {
    if record in Collected(entries[..|entries| - 1], resolve).records {
      CollectedWasResolved(entries[..|entries| - 1], resolve, record);
    } else {
      var head := J.ParseHead(entries[|entries| - 1].value);
      assert resolve(head.value.sessionId) == Authority(record);
    }
  }

  lemma {:induction false} ListedWasResolved(
    scan: Scan, resolve: string -> Resolution, after: Option<string>, seen: set<string>, cursors: set<string>, record: Revision)
    requires Cursors(scan, cursors) && record in Listed(scan, resolve, after, seen, cursors).records
    ensures exists session :: resolve(session) == Authority(record)
    decreases cursors - seen
  {
    hide Collected;
    var page := scan(after);
    if record in Collected(page.entries, resolve).records {
      CollectedWasResolved(page.entries, resolve, record);
    } else {
      assert page.next.value in cursors;
      ListedWasResolved(scan, resolve, page.next, seen + {page.next.value}, cursors, record);
    }
  }

  /**
   * A listing of a store that does not stand still, page by page and whatever the pages:
   * every record listed was its session's active authority at some instant inside the read
   * of that session.
   */
  lemma ListedWasActive(
    scan: Scan, resolve: string -> Resolution, traces: string -> seq<R.Config>, cursors: set<string>, record: Revision)
    requires Cursors(scan, cursors) && ReadMeanwhile(resolve, traces)
    requires record in Listed(scan, resolve, None, {}, cursors).records
    ensures exists session :: ActiveInside(traces(session), session, record)
  {
    hide Listed, ActiveInside, ReadMeanwhile;
    ListedWasResolved(scan, resolve, None, {}, cursors, record);
    var session :| resolve(session) == Authority(record);
    ResolvedInside(resolve, traces, session, record);
  }
}
