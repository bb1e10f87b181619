/**
 * The append authority of the audit trail (src/adapters/persistence-audit.ts): it
 * parses the trail file, answers redeliveries, stamps position, time and hashes,
 * and replaces the file durably.
 */
module AuditAppend {
  import opened Results
  import opened AuditEvents
  import opened AuditVerify
  import opened AuditTheorems

  /** File text: JSON of one record, whitespace, newline, or text that is no record. */
  datatype Piece = Json(raw: Raw) | Space | Newline | Junk

  type Text = seq<Piece>

  /** split('\n'): always at least one line. */
  function Lines(text: Text): (lines: seq<Text>)
    ensures |lines| >= 1
  {
    if text == [] then [[]]
    else
      var rest := Lines(text[1..]);
      if text[0].Newline? then [[]] + rest else [[text[0]] + rest[0]] + rest[1..]
  }

  function TrimStart(line: Text): Text {
    if line != [] && line[0].Space? then TrimStart(line[1..]) else line
  }

  function Trim(line: Text): Text {
    var t := TrimStart(line);
    TrimEnd(t)
  }

  function TrimEnd(line: Text): Text {
    if line != [] && line[|line| - 1].Space? then TrimEnd(line[..|line| - 1]) else line
  }

  /** Trimming takes the blanks off both ends and nothing else. */
  lemma TrimMeans(line: Text) returns (before: nat, after: nat)
    ensures before + |Trim(line)| + after == |line| && Trim(line) == line[before..before + |Trim(line)|]
    ensures forall i :: 0 <= i < before || |line| - after <= i < |line| ==> line[i].Space?
    ensures Trim(line) != [] ==> !Trim(line)[0].Space? && !Trim(line)[|Trim(line)| - 1].Space?
  {
    before := TrimStartMeans(line);
    after := TrimEndMeans(TrimStart(line));
    assert forall i :: |line| - after <= i < |line| ==> line[i] == TrimStart(line)[i - before];
  }

  lemma {:induction false} TrimStartMeans(line: Text) returns (n: nat)
    ensures n <= |line| && TrimStart(line) == line[n..] && forall i :: 0 <= i < n ==> line[i].Space?
    ensures n < |line| ==> !line[n].Space?
  {
    if line != [] && line[0].Space? {
      n := TrimStartMeans(line[1..]);
      n := n + 1;
    } else {
      n := 0;
    }
  }

  lemma {:induction false} TrimEndMeans(line: Text) returns (n: nat)
    ensures n <= |line| && TrimEnd(line) == line[..|line| - n] && forall i :: |line| - n <= i < |line| ==> line[i].Space?
    ensures n < |line| ==> !line[|line| - n - 1].Space?
  {
    if line != [] && line[|line| - 1].Space? {
      n := TrimEndMeans(line[..|line| - 1]);
      n := n + 1;
    } else {
      n := 0;
    }
  }

  datatype AuditError = Malformed | NotAuditEvent | InvalidBody | DuplicateId | InvalidEvent

  /** The events of the first n lines, or the first line that is no event. */
  function ParseLines(lines: seq<Text>, n: nat): Result<seq<Event>, AuditError>
    requires n <= |lines|
  {
    if n == 0 then Ok([])
    else
      var events :- ParseLines(lines, n - 1);
      var trimmed := Trim(lines[n - 1]);
      if trimmed == [] then Ok(events)
      else if |trimmed| == 1 && trimmed[0].Json? then
        match Parse(trimmed[0].raw)
        case Some(e) => Ok(events + [e])
        case None => Err(NotAuditEvent)
      else Err(Malformed)
  }

  function ParseTrail(text: Text): Result<seq<Event>, AuditError> {
    ParseLines(Lines(text), |Lines(text)|)
  }

  /** parseAuditTrail: line by line, failing closed on the first line that is no event. */
  method ParseAuditTrail(text: Text) returns (result: Result<seq<Event>, AuditError>)
    ensures result == ParseTrail(text)
  {
    var lines := Lines(text);
    var events: seq<Event> := [];
    for i := 0 to |lines|
      invariant ParseLines(lines, i) == Ok(events)
    {
      var trimmed := Trim(lines[i]);
      if trimmed != [] {
        if |trimmed| != 1 || !trimmed[0].Json? {
          ParseFails(lines, i + 1, |lines|);
          return Err(Malformed);
        }
        var parsed := Parse(trimmed[0].raw);
        if parsed.None? {
          ParseFails(lines, i + 1, |lines|);
          return Err(NotAuditEvent);
        }
        events := events + [parsed.value];
      }
    }
    result := Ok(events);
  }

  lemma {:induction false} ParseFails(lines: seq<Text>, m: nat, n: nat)
    requires m <= n <= |lines| && ParseLines(lines, m).Err?
    ensures ParseLines(lines, n) == ParseLines(lines, m)
  {
    if m < n {
      ParseFails(lines, m, n - 1);
    }
  }

  // ---- Stamping ----

  /**
   * What a producer submits: content, optional evidence, claims about position and
   * hashes (dropped), and whether it carries unknown keys or an invalid body.
   */
  datatype Submission = Submission(
    body: Body,
    evidence: Option<Evidence>,
    claims: Option<Event>,
    valid: bool,
    unknownKeys: bool)

  /** Digest of the normalized commit body: content under the current format, position dropped. */
  function CommitDigest(body: Body): Hash {
    ContentHash(CURRENT_FORMAT, body)
  }

  function LastChainHash(events: seq<Event>): Hash {
    PrevHash(events, |events|)
  }

  /** isChainedEvent: the record carries both hash fields. */
  predicate IsChained(raw: Raw) {
    raw.Record? && raw.event.chainHash != OtherHash("") && raw.event.sealed.prevHash != OtherHash("")
  }

  /** getLastChainHash: scan backward for the newest record with hash fields. */
  method GetLastChainHash(trail: seq<Raw>) returns (hash: Hash)
    ensures (forall i :: 0 <= i < |trail| ==> !IsChained(trail[i])) ==> hash == Genesis
    ensures forall i :: 0 <= i < |trail| && IsChained(trail[i]) && (forall k :: i < k < |trail| ==> !IsChained(trail[k]))
              ==> hash == trail[i].event.chainHash
    ensures AllEvents(trail) && (forall i :: 0 <= i < |trail| ==> IsChained(trail[i])) ==>
              hash == LastChainHash(Parsed(trail))
  {
    var i := |trail| - 1;
    while i >= 0
      invariant -1 <= i < |trail|
      invariant forall k :: i < k < |trail| ==> !IsChained(trail[k])
    {
      if IsChained(trail[i]) {
        return trail[i].event.chainHash;
      }
      i := i - 1;
    }
    hash := Genesis;
  }

  function Stamp(existing: seq<Event>, submission: Submission, now: Timestamp): Event {
    var sealed := Sealed(CURRENT_FORMAT, submission.body, submission.evidence, |existing| + 1, now,
                         LastChainHash(existing), CommitDigest(submission.body));
    Event(sealed, ComputeChainHash(sealed.prevHash, sealed))
  }

  /** The first stored event with the submitted id. */
  function FindId(events: seq<Event>, id: string): Option<Event> {
    if events == [] then None
    else if events[0].sealed.body.id == id then Some(events[0])
    else FindId(events[1..], id)
  }

  /** The record returned to the caller, and the file text to write if it is new. */
  datatype Plan = Append(event: Event, text: Text) | Redelivered(event: Event)

  function PlanAppend(text: Text, submission: Submission, now: Timestamp): Result<Plan, AuditError> {
    if !submission.valid then Err(InvalidBody)
    else
      var existing :- ParseTrail(text);
      match FindId(existing, submission.body.id)
      case Some(stored) =>
        // Unknown keys are digested too, and no stored record has any.
        if !submission.unknownKeys && ContentDigest(stored.sealed) == CommitDigest(submission.body)
        then Ok(Redelivered(stored)) else Err(DuplicateId)
      case None =>
        var e := Stamp(existing, submission, now);
        if submission.unknownKeys || !WellFormed(e) then Err(InvalidEvent)
        else Ok(Append(e, text + [Json(Record(e, "")), Newline]))
  }

  // ---- Appending one line ----

  /** The text ends in a line of nothing but whitespace, as every written trail does. */
  predicate EndsOpen(text: Text) {
    var lines := Lines(text);
    Trim(lines[|lines| - 1]) == []
  }

  /** The lines of two texts put together: the last line of one runs into the first of the other. */
  function Glue(x: seq<Text>, y: seq<Text>): seq<Text>
    requires |x| >= 1 && |y| >= 1
  {
    x[..|x| - 1] + [x[|x| - 1] + y[0]] + y[1..]
  }

  lemma GlueBreak(x: seq<Text>, y: seq<Text>)
    requires |x| >= 1 && |y| >= 1
    ensures Glue([[]] + x, y) == [[]] + Glue(x, y)
  {
  }

  lemma GluePiece(p: Piece, x: seq<Text>, y: seq<Text>)
    requires |x| >= 1 && |y| >= 1
    ensures Glue([[p] + x[0]] + x[1..], y) == [[p] + Glue(x, y)[0]] + Glue(x, y)[1..]
  {
    if |x| == 1 {
      assert [p] + (x[0] + y[0]) == ([p] + x[0]) + y[0];
    }
  }

  lemma {:induction false} LinesConcat(a: Text, b: Text)
    ensures Lines(a + b) == Glue(Lines(a), Lines(b))
  {
    if a == [] {
      assert a + b == b;
      assert [] + Lines(b)[0] == Lines(b)[0];
      assert [Lines(b)[0]] + Lines(b)[1..] == Lines(b);
    } else {
      hide Glue;
      assert (a + b)[1..] == a[1..] + b;
      LinesConcat(a[1..], b);
      GlueBreak(Lines(a[1..]), Lines(b));
      GluePiece(a[0], Lines(a[1..]), Lines(b));
    }
  }

  lemma {:induction false} TrimSpaces(line: Text, p: Piece)
    requires !p.Space?
    ensures Trim(line + [p]) == [p] <==> Trim(line) == []
    ensures Trim(line + [p]) != [] && Trim(line + [p])[|Trim(line + [p])| - 1] == p
  {
    if line == [] {
    } else if line[0].Space? {
      assert (line + [p])[1..] == line[1..] + [p];
      TrimSpaces(line[1..], p);
    } else {
      assert (line + [p])[|line|] == p;
      TrimEndKeepsFirst(line);
    }
  }

  lemma {:induction false} TrimEndKeepsFirst(line: Text)
    requires line != [] && !line[0].Space?
    ensures TrimEnd(line) != [] && TrimEnd(line)[0] == line[0]
  {
    if line[|line| - 1].Space? {
      TrimEndKeepsFirst(line[..|line| - 1]);
    }
  }

  lemma {:induction false} ParseSame(a: seq<Text>, b: seq<Text>, n: nat)
    requires n <= |a| && n <= |b| && a[..n] == b[..n]
    ensures ParseLines(a, n) == ParseLines(b, n)
  {
    if n > 0 {
      assert a[..n - 1] == a[..n][..n - 1] && b[..n - 1] == b[..n][..n - 1];
      assert a[n - 1] == a[..n][n - 1] && b[n - 1] == b[..n][n - 1];
      ParseSame(a, b, n - 1);
    }
  }

  /**
   * Appending a record and a newline to a trail that parses adds exactly that event
   * to the parse if and only if the trail ends in an open line; on any other file
   * the new record runs into the last one and the trail becomes unreadable.
   */
  lemma AppendedLineParses(text: Text, e: Event)
    requires ParseTrail(text).Ok? && WellFormed(e)
    ensures var longer := text + [Json(Record(e, "")), Newline];
      && (EndsOpen(text) ==> ParseTrail(longer) == Ok(ParseTrail(text).value + [e]) && EndsOpen(longer))
      && (!EndsOpen(text) ==> ParseTrail(longer) == Err(Malformed))
  {
    hide Trim, WellFormed;
    var tail: Text := [Json(Record(e, "")), Newline];
    var longer, before := text + tail, Lines(text);
    var n := |before| - 1;
    RecordLine(Json(Record(e, "")));
    LinesConcat(text, tail);
    var after := Lines(longer);
    assert after == before[..n] + [before[n] + [Json(Record(e, ""))]] + [[]];
    ParseSame(after, before, n);
    ParsePrefix(before, n, |before|);
    TrimSpaces(before[n], Json(Record(e, "")));
    EmptyTrim();
    assert ParseLines(after, n + 2) == ParseLines(after, n + 1);
  }

  /** A record without a newline parses, and appending to it makes the trail unreadable. */
  lemma UnterminatedTrail(e: Event)
    requires WellFormed(e)
    ensures var text: Text := [Json(Record(FIRST_EVENT, ""))];
      && ParseTrail(text) == Ok([FIRST_EVENT]) && !EndsOpen(text)
      && ParseTrail(text + [Json(Record(e, "")), Newline]) == Err(Malformed)
  {
    var p := Json(Record(FIRST_EVENT, ""));
    var text: Text := [p];
    FirstEventIsWellFormed();
    hide WellFormed;
    assert text[1..] == [] && Lines([]) == [[]];
    assert [p] + [] == text;
    assert Lines(text) == [text];
    assert Trim(text) == text;
    assert ParseLines(Lines(text), 0) == Ok([]);
    assert [] + [FIRST_EVENT] == [FIRST_EVENT];
    AppendedLineParses(text, e);
  }

  lemma EmptyTrim()
    ensures Trim([]) == []
  {
  }

  lemma RecordLine(p: Piece)
    requires !p.Newline?
    ensures Lines([p, Newline]) == [[p], []]
  {
    var end: Text := [Newline];
    assert [p, Newline][1..] == end && end[1..] == [];
    assert Lines(end[1..]) == [[]];
    assert Lines(end) == [[], []];
    assert [p] + [] == [p];
  }

  lemma {:induction false} ParsePrefix(lines: seq<Text>, m: nat, n: nat)
    requires m <= n <= |lines| && ParseLines(lines, n).Ok?
    ensures ParseLines(lines, m).Ok? && ParseLines(lines, m).value <= ParseLines(lines, n).value
  {
    if m < n {
      ParsePrefix(lines, m, n - 1);
    }
  }

  // ---- Append preserves verification ----

  ghost predicate VerifiedTrail(events: seq<Event>) {
    Authentic(events, "") && Chronological(events)
  }

  /**
   * A verified trail extended by the authority verifies again exactly when the new
   * content names the trail's session, did not occur after it was recorded, and the
   * clock did not go back; position, sequence and digests are always right.
   */
  lemma StampKeepsVerification(events: seq<Event>, submission: Submission, now: Timestamp)
    requires VerifiedTrail(events)
    ensures var longer := events + [Stamp(events, submission, now)];
      && LinkedAt(longer, |events|)
      && (VerifiedTrail(longer) <==>
            && !BadClock(longer[|events|])
            && (events != [] ==>
                  && submission.body.session == events[0].sealed.body.session
                  && events[|events| - 1].sealed.recordedAt.epoch.value <= now.epoch.value))
  {
    hide BadClock, LinkedAt;
    var e := Stamp(events, submission, now);
    var longer := events + [e];
    StampLinks(events, submission, now);
    forall i | 0 <= i < |events| ensures LinkedAt(longer, i) {
      LinkedPrefix(events, e, i);
    }
    forall i | 0 <= i < |longer| && !BadClock(longer[i]) ensures longer[i].sealed.recordedAt.epoch.Some? {
      UsableClock(longer[i]);
    }
    assert forall i :: 0 <= i < |events| ==> longer[i] == events[i];
    assert longer[|events|] == e;
    if VerifiedTrail(longer) {
      assert !BadClock(longer[|events|]);
      assert events != [] ==> !BadClock(longer[|events| - 1]);
    } else {
      assert forall i :: 0 <= i < |events| ==> !BadClock(longer[i]);
      assert forall i, j :: 0 <= i < j < |events| ==>
        events[i].sealed.recordedAt.epoch.value <= events[j].sealed.recordedAt.epoch.value;
    }
  }

  lemma StampLinks(events: seq<Event>, submission: Submission, now: Timestamp)
    ensures LinkedAt(events + [Stamp(events, submission, now)], |events|)
  {
    assert PrevHash(events + [Stamp(events, submission, now)], |events|) == LastChainHash(events);
  }

  lemma LinkedPrefix(events: seq<Event>, e: Event, i: nat)
    requires i < |events|
    ensures LinkedAt(events + [e], i) <==> LinkedAt(events, i)
  {
    assert PrevHash(events + [e], i) == PrevHash(events, i);
  }

  /** Position stamps and evidence never change the digest the content was stamped with. */
  lemma DigestIgnoresPosition(s: Sealed, evidence: Option<Evidence>, sequence: int, at: Timestamp, prev: Hash, digest: Hash)
    ensures var moved := s.(evidence := evidence, sequence := sequence, recordedAt := at, prevHash := prev, semanticDigest := digest);
      ContentDigest(moved) == ContentDigest(s)
  {
  }

  // ---- What a producer finalizes and the authority re-stamps ----

  /**
   * finalizeWithTimestampEvidence: the producer's event with provisional position. A
   * TSA payload is anchored to the digest it was given, or to the content's own; the
   * digest algorithm is part of the payload's rest.
   */
  function Finalize(body: Body, ownPrev: Hash, prev: Hash, evidence: Option<Evidence>, precomputed: Option<Hash>): Event {
    var digest := if precomputed.Some? then precomputed.value else CommitDigest(body);
    var anchored := match evidence
      case Some(Evidence(status, Some(tsa), rest)) => Some(Evidence(status, Some(tsa.(imprint := Some(digest))), rest))
      case _ => evidence;
    var sealed := Sealed(CURRENT_FORMAT, body, anchored, 0, body.occurredAt, ownPrev, digest);
    Event(sealed, ComputeChainHash(prev, sealed))
  }

  /** The given digest, if any, is the content's own. */
  predicate DigestFits(body: Body, precomputed: Option<Hash>) {
    precomputed.None? || precomputed.value == CommitDigest(body)
  }

  /** A decision or lifecycle event carries evidence that is more than a local time. */
  predicate EvidencePresent(event: string, evidence: Option<Evidence>) {
    || !CriticalName(event)
    || (evidence.Some? && evidence.value.status != Local && evidence.value.status != TsaFailed)
  }

  /**
   * A finalized event is no chain record at any position, while the record the
   * authority makes of it links wherever it lands, and strict verification accepts
   * its evidence exactly when a critical event has some, and a TSA payload is given
   * with the right digest and is neither degraded nor a token.
   */
  lemma FinalizedIsStamped(existing: seq<Event>, body: Body, ownPrev: Hash, prev: Hash, evidence: Option<Evidence>,
                           precomputed: Option<Hash>, valid: bool, unknownKeys: bool, now: Timestamp)
    ensures var produced := Finalize(body, ownPrev, prev, evidence, precomputed);
      var longer := existing + [Stamp(existing, Submission(body, produced.sealed.evidence, Some(produced), valid, unknownKeys), now)];
      && (forall expected, index: nat :: VerifyEvent(produced, expected, index).Some?)
      && LinkedAt(longer, |existing|)
      && (EvidenceSound(longer) <==>
            && EvidenceSound(existing)
            && EvidencePresent(body.event, evidence)
            && (evidence.Some? && evidence.value.tsa.Some? ==>
                  && !Degraded(evidence.value.status) && evidence.value.tsa.value.token == ""
                  && DigestFits(body, precomputed)))
  {
    hide LastChainHash, Degraded, LinkedAt;
    var produced := Finalize(body, ownPrev, prev, evidence, precomputed);
    assert produced.sealed.sequence == 0;
    var submission := Submission(body, produced.sealed.evidence, Some(produced), valid, unknownKeys);
    var e := Stamp(existing, submission, now);
    StampLinks(existing, submission, now);
    EvidenceOfLonger(existing, e);
  }

  lemma EvidenceOfLonger(events: seq<Event>, e: Event)
    ensures EvidenceSound(events + [e]) <==> EvidenceSound(events) && CheckImprint(e) == ImprintOk && !LacksEvidence(e)
  {
    hide CheckImprint, LacksEvidence;
    var longer := events + [e];
    assert longer[|events|] == e;
    assert forall i :: 0 <= i < |events| ==> longer[i] == events[i];
  }

  // ---- Exactly once ----

  ghost predicate UniqueIds(events: seq<Event>) {
    forall i, j :: 0 <= i < j < |events| ==> events[i].sealed.body.id != events[j].sealed.body.id
  }

  /** A trail file as the authority leaves it. */
  ghost predicate GoodTrail(text: Text) {
    && ParseTrail(text).Ok? && EndsOpen(text)
    && UniqueIds(ParseTrail(text).value)
    && forall i :: 0 <= i < |ParseTrail(text).value| ==> LinkedAt(ParseTrail(text).value, i)
  }

  lemma {:induction false} FindIdMeans(events: seq<Event>, id: string)
    ensures FindId(events, id).None? <==> forall i :: 0 <= i < |events| ==> events[i].sealed.body.id != id
    ensures FindId(events, id).Some? ==> FindId(events, id).value in events && FindId(events, id).value.sealed.body.id == id
  {
    if events != [] {
      FindIdMeans(events[1..], id);
      if FindId(events, id).None? {
        forall i | 0 <= i < |events| ensures events[i].sealed.body.id != id {
          assert i > 0 ==> events[i] == events[1..][i - 1];
        }
      }
    }
  }

  /** A planned append makes the trail longer by exactly the stamped record, under a new id; a redelivery is stored. */
  lemma PlanExtends(text: Text, submission: Submission, now: Timestamp)
    requires GoodTrail(text) && PlanAppend(text, submission, now).Ok?
    ensures var events, plan := ParseTrail(text).value, PlanAppend(text, submission, now).value;
      && plan.event.sealed.body == submission.body
      && (plan.Redelivered? ==> plan.event in events)
      && (plan.Append? ==>
            && plan.event == Stamp(events, submission, now) && FindId(events, submission.body.id).None?
            && GoodTrail(plan.text) && ParseTrail(plan.text).value == events + [plan.event])
  {
    hide ParseTrail, EndsOpen, WellFormed, LinkedAt;
    var events, plan := ParseTrail(text).value, PlanAppend(text, submission, now).value;
    var e := Stamp(events, submission, now);
    FindIdMeans(events, submission.body.id);
    if plan.Append? {
      AppendedLineParses(text, e);
      StampLinks(events, submission, now);
      forall i | 0 <= i < |events| ensures LinkedAt(events + [e], i) {
        LinkedPrefix(events, e, i);
      }
    }
  }

  /**
   * Which submissions are appended, and as what: over any good trail exactly those that are
   * valid, carry no unknown keys, and name an event and a session under an id no stored
   * event has. The record holds the submitted content and evidence as the next of the
   * trail, recorded now, linked to the last record.
   */
  lemma AcceptedIff(text: Text, submission: Submission, now: Timestamp)
    requires GoodTrail(text)
    ensures var events, plan := ParseTrail(text).value, PlanAppend(text, submission, now);
      && (plan.Ok? && plan.value.Append? <==>
            && submission.valid && !submission.unknownKeys
            && submission.body.id != "" && submission.body.session != ""
            && forall i :: 0 <= i < |events| ==> events[i].sealed.body.id != submission.body.id)
      && (plan.Ok? && plan.value.Append? ==> IsNextRecord(events, submission, now, plan.value.event))
      && (plan == Err(InvalidBody) <==> !submission.valid)
      && (plan == Err(InvalidEvent) <==>
            && submission.valid && (forall i :: 0 <= i < |events| ==> events[i].sealed.body.id != submission.body.id)
            && (submission.unknownKeys || submission.body.id == "" || submission.body.session == ""))
  {
    hide ParseTrail, EndsOpen, LinkedAt;
    FindIdMeans(ParseTrail(text).value, submission.body.id);
  }

  /** The record that follows a trail, field by field. */
  predicate IsNextRecord(events: seq<Event>, submission: Submission, now: Timestamp, e: Event) {
    var s := e.sealed;
    && s.formatVersion == "audit-chain.v3" && s.body == submission.body && s.evidence == submission.evidence
    && s.sequence == |events| + 1 && s.recordedAt == now
    && s.prevHash == (if events == [] then Genesis else events[|events| - 1].chainHash)
    && s.semanticDigest == ContentHash("audit-chain.v3", submission.body)
    && e.chainHash == ChainHash(s.prevHash, s)
  }

  /** Over a good trail that holds the record e, a call under e's id plans no write: it is e again, or refused. */
  lemma StoredIsRedelivered(text: Text, e: Event, submission: Submission, now: Timestamp)
    requires GoodTrail(text) && e in ParseTrail(text).value
    requires submission.body.id == e.sealed.body.id && submission.valid
    ensures PlanAppend(text, submission, now) ==
      if submission.body == e.sealed.body && !submission.unknownKeys then Ok(Redelivered(e)) else Err(DuplicateId)
  {
    hide ParseTrail, LinkedAt, EndsOpen, Stamp, WellFormed;
    UniqueFind(ParseTrail(text).value, e);
    FormatOfStored(text, e);
  }

  lemma UniqueFind(events: seq<Event>, e: Event)
    requires UniqueIds(events) && e in events
    ensures FindId(events, e.sealed.body.id) == Some(e)
  {
    FindIdMeans(events, e.sealed.body.id);
    var f := FindId(events, e.sealed.body.id);
    if f.Some? {
      var i :| 0 <= i < |events| && events[i] == e;
      var k :| 0 <= k < |events| && events[k] == f.value;
    }
  }

  lemma FormatOfStored(text: Text, e: Event)
    requires GoodTrail(text) && e in ParseTrail(text).value
    ensures ContentDigest(e.sealed) == CommitDigest(e.sealed.body)
  {
    hide ParseTrail;
    var events := ParseTrail(text).value;
    var i :| 0 <= i < |events| && events[i] == e;
    assert LinkedAt(events, i);
  }

  /** An empty or absent file is a good trail. */
  lemma EmptyTrailIsGood()
    ensures GoodTrail([])
  {
  }
}
