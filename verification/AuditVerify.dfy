/**
 * Verification of whole audit trails (src/audit/integrity.ts,
 * src/audit/timestamp-verification.ts): the one-pass verifier, what its verdict
 * means globally, and what a chain head pins.
 */
module AuditVerify {
  import opened Results
  import opened Strings
  import opened AuditEvents

  datatype Code =
    | ChainBreak
    | EnvelopeInvalid
    | ClockAnomaly
    | EvidenceMissing
    | ImprintMismatch
    | TokenRequired
    | EvidenceDowngraded

  /** Why one record fails, in the order the checks are made. */
  datatype Fault =
    | NotAnEvent
    | WrongSession
    | WrongFormat
    | WrongPrevHash
    | WrongChainHash
    | WrongSequence
    | WrongContentDigest

  function CodeOf(fault: Fault): Code {
    if fault.NotAnEvent? || fault.WrongFormat? then EnvelopeInvalid else ChainBreak
  }

  datatype Verdict = Verdict(index: nat, eventId: string, fault: Option<Fault>)

  function VerifyEvent(e: Event, expectedPrev: Hash, index: nat): Option<Fault> {
    if e.sealed.formatVersion != CURRENT_FORMAT then Some(WrongFormat)
    else if e.sealed.prevHash != expectedPrev then Some(WrongPrevHash)
    else if ComputeChainHash(e.sealed.prevHash, e.sealed) != e.chainHash then Some(WrongChainHash)
    else if e.sealed.sequence != index + 1 then Some(WrongSequence)
    else if ContentDigest(e.sealed) != e.sealed.semanticDigest then Some(WrongContentDigest)
    else None
  }

  /** A schema-valid event with its original trail position. */
  datatype Indexed = Indexed(index: nat, event: Event)

  function Canonical(trail: seq<Raw>): seq<Indexed> {
    if trail == [] then []
    else
      var n := |trail| - 1;
      Canonical(trail[..n])
        + (match Parse(trail[n]) case Some(e) => [Indexed(n, e)] case None => [])
  }

  /** The chain hash of the last schema-valid record, whether or not it verified. */
  function LastHash(trail: seq<Raw>): Hash {
    var events := Canonical(trail);
    if events == [] then Genesis else events[|events| - 1].event.chainHash
  }

  /** The session every record must name: the expected one, or the first event's. */
  function TrailSession(trail: seq<Raw>, expected: string): string {
    if expected != "" then expected
    else if Canonical(trail) == [] then ""
    else Canonical(trail)[0].event.sealed.body.session
  }

  function RawId(raw: Raw): string {
    match raw
    case Record(e, _) => e.sealed.body.id
    case Foreign(Some(id)) => id
    case Foreign(None) => "unknown"
  }

  /** The verdict on record i of a trail. */
  function VerdictAt(trail: seq<Raw>, expected: string, i: nat): Verdict
    requires i < |trail|
  {
    match Parse(trail[i])
    case None => Verdict(i, RawId(trail[i]), Some(NotAnEvent))
    case Some(e) =>
      var fault := if e.sealed.body.session == TrailSession(trail[..i + 1], expected)
                   then VerifyEvent(e, LastHash(trail[..i]), i) else Some(WrongSession);
      Verdict(i, e.sealed.body.id, fault)
  }

  // ---- Timestamps ----

  /** The event's own timestamps are unusable: unparseable, or recorded before it occurred. */
  predicate BadClock(e: Event) {
    || e.sealed.recordedAt.epoch.None?
    || e.sealed.body.occurredAt.epoch.None?
    || e.sealed.body.occurredAt.epoch.value > e.sealed.recordedAt.epoch.value
  }

  /** Event i is a clock anomaly: unusable, or recorded before some earlier event was. */
  ghost predicate Anomalous(events: seq<Event>, i: nat)
    requires i < |events|
  {
    || BadClock(events[i])
    || exists j :: 0 <= j < i && events[j].sealed.recordedAt.epoch.Some?
                   && events[j].sealed.recordedAt.epoch.value > events[i].sealed.recordedAt.epoch.value
  }

  /** Every event is usable and recordedAt is sorted over all pairs. */
  ghost predicate Chronological(events: seq<Event>) {
    && (forall i :: 0 <= i < |events| ==> !BadClock(events[i]))
    && (forall i, j :: 0 <= i < j < |events| ==>
          events[i].sealed.recordedAt.epoch.value <= events[j].sealed.recordedAt.epoch.value)
  }

  /** verifyTimestampMonotonicity: the first anomaly, comparing each event with its predecessor only. */
  method VerifyMonotonicity(events: seq<Event>) returns (firstBreak: Option<nat>)
    ensures firstBreak.None? <==> Chronological(events)
    ensures firstBreak.Some? ==>
      && firstBreak.value < |events| && Anomalous(events, firstBreak.value)
      && forall i :: 0 <= i < firstBreak.value ==> !Anomalous(events, i)
  {
    var previous: Option<int> := None;
    for i := 0 to |events|
      invariant Chronological(events[..i])
      invariant forall k :: 0 <= k < i ==> !Anomalous(events, k)
      invariant previous == if i == 0 then None else events[i - 1].sealed.recordedAt.epoch
    {
      var recorded := events[i].sealed.recordedAt.epoch;
      var occurred := events[i].sealed.body.occurredAt.epoch;
      if recorded.None? || occurred.None? || occurred.value > recorded.value {
        return Some(i);
      }
      if previous.Some? && recorded.value < previous.value {
        assert events[i - 1] == events[..i][i - 1];
        return Some(i);
      }
      assert forall k :: 0 <= k < i ==> events[..i][k] == events[k];
      previous := recorded;
    }
    assert events[..|events|] == events;
    firstBreak := None;
  }

  // ---- Strict timestamp evidence ----

  predicate Critical(e: Event) { CriticalName(e.sealed.body.event) }

  predicate CriticalName(name: string) {
    || StartsWith(name, "decision:") || StartsWith(name, "lifecycle:")
    || name == "decision" || name == "lifecycle"
  }

  predicate LacksEvidence(e: Event) {
    && Critical(e)
    && (|| e.sealed.evidence.None?
        || e.sealed.evidence.value.status == Local
        || e.sealed.evidence.value.status == TsaFailed)
  }

  predicate Degraded(status: Status) {
    status == Local || status == NtpChecked || status == TsaFailed
  }

  datatype ImprintCheck = ImprintOk | Downgraded | NeedsToken | Mismatch

  /** verifyTsaMessageImprint. The schema makes the token a string, so a TSA payload is always evidence. */
  function CheckImprint(e: Event): ImprintCheck {
    match e.sealed.evidence
    case None => ImprintOk
    case Some(evidence) =>
      match evidence.tsa
      case None => ImprintOk
      case Some(tsa) =>
        if Degraded(evidence.status) then Downgraded
        else if tsa.token != "" then NeedsToken
        else if tsa.imprint.None? then Mismatch
        else if e.sealed.semanticDigest != ContentDigest(e.sealed) then Mismatch
        else if tsa.imprint.value != ContentDigest(e.sealed) then Mismatch
        else ImprintOk
  }

  // ---- The verifier ----

  datatype Report = Report(
    reason: Option<Code>,
    results: seq<Verdict>,
    firstBreak: Option<Verdict>,
    clockBreak: Option<nat>,
    missing: seq<nat>,
    mismatches: seq<nat>,
    tokens: seq<nat>,
    downgraded: seq<nat>)

  function Events(indexed: seq<Indexed>): (events: seq<Event>)
    ensures |events| == |indexed|
    ensures forall i :: 0 <= i < |indexed| ==> events[i] == indexed[i].event
  {
    seq(|indexed|, i requires 0 <= i < |indexed| => indexed[i].event)
  }

  /** Positions of the events with a property, in trail order. */
  function Positions(indexed: seq<Indexed>, p: Event -> bool): seq<nat> {
    if indexed == [] then []
    else
      var n := |indexed| - 1;
      Positions(indexed[..n], p) + (if p(indexed[n].event) then [indexed[n].index] else [])
  }

  lemma {:induction false} PositionsMean(indexed: seq<Indexed>, p: Event -> bool)
    ensures Positions(indexed, p) == [] <==> forall i :: 0 <= i < |indexed| ==> !p(indexed[i].event)
    ensures forall at :: at in Positions(indexed, p) <==>
      exists i :: 0 <= i < |indexed| && indexed[i].index == at && p(indexed[i].event)
  {
    if indexed != [] {
      var n := |indexed| - 1;
      PositionsMean(indexed[..n], p);
      assert forall i :: 0 <= i < n ==> indexed[..n][i] == indexed[i];
    }
  }

  ghost predicate FirstFault(results: seq<Verdict>, code: Option<Code>, found: Option<Verdict>) {
    match found
    case None => forall i :: 0 <= i < |results| && results[i].fault.Some? ==>
                   code.Some? && CodeOf(results[i].fault.value) != code.value
    case Some(v) => exists i :: 0 <= i < |results| && results[i] == v && v.fault.Some?
                      && (code.Some? ==> CodeOf(v.fault.value) == code.value)
                      && forall k :: 0 <= k < i && results[k].fault.Some? ==>
                           code.Some? && CodeOf(results[k].fault.value) != code.value
  }

  ghost predicate FirstAnomaly(indexed: seq<Indexed>, k: nat, position: nat)
    requires k < |indexed|
  {
    && indexed[k].index == position
    && Anomalous(Events(indexed), k)
    && forall m :: 0 <= m < k ==> !Anomalous(Events(indexed), m)
  }

  /** The reported clock break is the original position of the first anomalous event. */
  ghost predicate ClockBreakAt(indexed: seq<Indexed>, at: Option<nat>) {
    match at
    case None => Chronological(Events(indexed))
    case Some(position) => exists k :: 0 <= k < |indexed| && FirstAnomaly(indexed, k, position)
  }

  datatype Failures = Failures(first: Option<Verdict>, chain: Option<Verdict>, envelope: Option<Verdict>)

  ghost predicate Tracked(results: seq<Verdict>, failures: Failures) {
    && FirstFault(results, None, failures.first)
    && FirstFault(results, Some(ChainBreak), failures.chain)
    && FirstFault(results, Some(EnvelopeInvalid), failures.envelope)
  }

  /** The record loop of verifyChain. */
  method ScanRecords(trail: seq<Raw>, expected: string)
    returns (results: seq<Verdict>, canonical: seq<Indexed>, failures: Failures)
    ensures |results| == |trail|
    ensures forall i :: 0 <= i < |trail| ==> results[i] == VerdictAt(trail, expected, i)
    ensures canonical == Canonical(trail)
    ensures Tracked(results, failures)
  {
    hide FirstFault, Canonical, VerifyEvent;
    assert trail[..|trail|] == trail;
    assert trail[..0] == [];
    results, canonical, failures := [], [], Failures(None, None, None);
    NothingTracked();
    EmptyCanonical();
    var lastHash := Genesis;
    var session := expected;
    for i := 0 to |trail|
      invariant |results| == i
      invariant forall k :: 0 <= k < i ==> results[k] == VerdictAt(trail, expected, k)
      invariant canonical == Canonical(trail[..i])
      invariant lastHash == LastHash(trail[..i])
      invariant session == TrailSession(trail[..i], expected)
      invariant session == "" ==> canonical == []
      invariant Tracked(results, failures)
    {
      CanonicalSnoc(trail, i);
      var parsed := Parse(trail[i]);
      var verdict: Verdict;
      if parsed.None? {
        verdict := Verdict(i, RawId(trail[i]), Some(NotAnEvent));
      } else {
        var event := parsed.value;
        canonical := canonical + [Indexed(i, event)];
        var fault := VerifyEvent(event, lastHash, i);
        if session == "" {
          session := event.sealed.body.session;
        }
        verdict := Verdict(i, event.sealed.body.id,
                           if event.sealed.body.session == session then fault else Some(WrongSession));
        lastHash := event.chainHash;
      }
      failures := Track(results, verdict, failures);
      results := results + [verdict];
    }
  }

  lemma NothingTracked()
    ensures Tracked([], Failures(None, None, None))
  {
  }

  lemma EmptyCanonical()
    ensures Canonical([]) == []
  {
  }

  /** verifyChain: one pass over the records, then the timestamp checks over the schema-valid ones. */
  method VerifyChain(trail: seq<Raw>, strict: bool, expected: string) returns (report: Report)
    ensures Verified(trail, strict, expected, report)
  {
    hide FirstFault, Chronological, Anomalous, Positions, VerdictAt;
    var results, canonical, failures := ScanRecords(trail, expected);
    var monotonic := VerifyMonotonicity(Events(canonical));
    var clockBreak := if monotonic.Some? then Some(canonical[monotonic.value].index) else None;
    assert monotonic.Some? ==> FirstAnomaly(canonical, monotonic.value, clockBreak.value);
    report := Report(None, results, failures.first, clockBreak, [], [], [], []);
    if strict {
      report := report.(
        missing := Positions(canonical, LacksEvidence),
        mismatches := Positions(canonical, Mismatches),
        tokens := Positions(canonical, RequiresToken),
        downgraded := Positions(canonical, IsDowngraded));
    }
    TrackedCodes(results, failures);
    report := report.(reason :=
      if failures.chain.Some? then Some(ChainBreak)
      else if failures.envelope.Some? then Some(EnvelopeInvalid)
      else if clockBreak.Some? then Some(ClockAnomaly)
      else if !strict then None
      else if report.downgraded != [] then Some(EvidenceDowngraded)
      else if report.mismatches != [] then Some(ImprintMismatch)
      else if report.missing != [] then Some(EvidenceMissing)
      else if report.tokens != [] then Some(TokenRequired)
      else None);
  }

  predicate Mismatches(e: Event) { CheckImprint(e) == Mismatch }
  predicate RequiresToken(e: Event) { CheckImprint(e) == NeedsToken }
  predicate IsDowngraded(e: Event) { CheckImprint(e) == Downgraded }

  /** What a report says about a trail. */
  ghost predicate Verified(trail: seq<Raw>, strict: bool, expected: string, report: Report) {
    var indexed := Canonical(trail);
    && |report.results| == |trail|
    && (forall i :: 0 <= i < |trail| ==> report.results[i] == VerdictAt(trail, expected, i))
    && FirstFault(report.results, None, report.firstBreak)
    && ClockBreakAt(indexed, report.clockBreak)
    && report.missing == (if strict then Positions(indexed, LacksEvidence) else [])
    && report.mismatches == (if strict then Positions(indexed, Mismatches) else [])
    && report.tokens == (if strict then Positions(indexed, RequiresToken) else [])
    && report.downgraded == (if strict then Positions(indexed, IsDowngraded) else [])
    && report.reason == Reason(report)
  }

  ghost predicate Fails(results: seq<Verdict>, code: Option<Code>) {
    exists i :: 0 <= i < |results| && results[i].fault.Some?
                && (code.Some? ==> CodeOf(results[i].fault.value) == code.value)
  }

  lemma TrackedCodes(results: seq<Verdict>, failures: Failures)
    requires Tracked(results, failures)
    ensures failures.chain.Some? <==> Fails(results, Some(ChainBreak))
    ensures failures.envelope.Some? <==> Fails(results, Some(EnvelopeInvalid))
    ensures Fails(results, None) <==> failures.chain.Some? || failures.envelope.Some?
  {
  }

  /** The fixed priority of reasons, read off a report. */
  ghost function Reason(report: Report): Option<Code> {
    if Fails(report.results, Some(ChainBreak)) then Some(ChainBreak)
    else if Fails(report.results, None) then Some(EnvelopeInvalid)
    else if report.clockBreak.Some? then Some(ClockAnomaly)
    else if report.downgraded != [] then Some(EvidenceDowngraded)
    else if report.mismatches != [] then Some(ImprintMismatch)
    else if report.missing != [] then Some(EvidenceMissing)
    else if report.tokens != [] then Some(TokenRequired)
    else None
  }

  /** trackVerificationFailure: remember the first failure overall and per class. */
  method Track(results: seq<Verdict>, verdict: Verdict, failures: Failures) returns (updated: Failures)
    requires Tracked(results, failures)
    ensures Tracked(results + [verdict], updated)
  {
    ghost var longer := results + [verdict];
    updated := failures;
    if verdict.fault.Some? {
      if updated.first.None? { updated := updated.(first := Some(verdict)); }
      if CodeOf(verdict.fault.value) == ChainBreak && updated.chain.None? {
        updated := updated.(chain := Some(verdict));
      }
      if CodeOf(verdict.fault.value) == EnvelopeInvalid && updated.envelope.None? {
        updated := updated.(envelope := Some(verdict));
      }
    }
    assert longer[|results|] == verdict;
    assert forall i :: 0 <= i < |results| ==> longer[i] == results[i];
  }

  lemma CanonicalSnoc(trail: seq<Raw>, i: nat)
    requires i < |trail|
    ensures Canonical(trail[..i + 1]) ==
      Canonical(trail[..i]) + (match Parse(trail[i]) case Some(e) => [Indexed(i, e)] case None => [])
  {
    assert trail[..i + 1][..i] == trail[..i];
  }
}
