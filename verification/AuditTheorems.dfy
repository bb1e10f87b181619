/**
 * What the audit verifier's verdict means for a whole trail, and why one chain
 * hash pins everything before it (src/audit/integrity.ts).
 */
module AuditTheorems {
  import opened Results
  import opened Strings
  import opened AuditEvents
  import opened AuditVerify

  /** Every record is a schema-valid event. */
  ghost predicate AllEvents(trail: seq<Raw>) {
    forall i :: 0 <= i < |trail| ==> Parse(trail[i]).Some?
  }

  function Parsed(trail: seq<Raw>): (events: seq<Event>)
    requires AllEvents(trail)
    ensures |events| == |trail|
    ensures forall i :: 0 <= i < |trail| ==> events[i] == Parse(trail[i]).value
  {
    seq(|trail|, i requires 0 <= i < |trail| => Parse(trail[i]).value)
  }

  function PrevHash(events: seq<Event>, i: nat): Hash
    requires i <= |events|
  {
    if i == 0 then Genesis else events[i - 1].chainHash
  }

  /** The record at position i is the one the append authority would have sealed there. */
  predicate LinkedAt(events: seq<Event>, i: nat)
    requires i < |events|
  {
    var e := events[i];
    && e.sealed.formatVersion == CURRENT_FORMAT
    && e.sealed.prevHash == PrevHash(events, i)
    && e.chainHash == ComputeChainHash(PrevHash(events, i), e.sealed)
    && e.sealed.sequence == i + 1
    && e.sealed.semanticDigest == ContentDigest(e.sealed)
  }

  /** The global meaning of an unbroken chain: every record links, and one session speaks. */
  ghost predicate Authentic(events: seq<Event>, expected: string) {
    && (forall i :: 0 <= i < |events| ==> LinkedAt(events, i))
    && (forall i :: 0 <= i < |events| ==>
          events[i].sealed.body.session == (if expected != "" then expected else events[0].sealed.body.session))
  }

  ghost predicate EvidenceSound(events: seq<Event>) {
    forall i :: 0 <= i < |events| ==> CheckImprint(events[i]) == ImprintOk && !LacksEvidence(events[i])
  }

  lemma {:induction false} CanonicalFull(trail: seq<Raw>)
    requires AllEvents(trail)
    ensures |Canonical(trail)| == |trail|
    ensures forall i :: 0 <= i < |trail| ==> Canonical(trail)[i] == Indexed(i, Parse(trail[i]).value)
    ensures Events(Canonical(trail)) == Parsed(trail)
  {
    if trail != [] {
      var n := |trail| - 1;
      CanonicalFull(trail[..n]);
    }
  }

  /** In a trail of events, the one-pass context of record i is its predecessor and the first session. */
  lemma ContextAt(trail: seq<Raw>, expected: string, i: nat)
    requires AllEvents(trail) && i < |trail|
    ensures LastHash(trail[..i]) == PrevHash(Parsed(trail), i)
    ensures TrailSession(trail[..i + 1], expected) ==
      (if expected != "" then expected else Parsed(trail)[0].sealed.body.session)
  {
    hide WellFormed;
    CanonicalFull(trail[..i]);
    CanonicalFull(trail[..i + 1]);
  }

  lemma VerdictMeans(trail: seq<Raw>, expected: string, i: nat)
    requires AllEvents(trail) && i < |trail|
    ensures VerdictAt(trail, expected, i).fault.None? <==>
      && LinkedAt(Parsed(trail), i)
      && Parsed(trail)[i].sealed.body.session ==
           (if expected != "" then expected else Parsed(trail)[0].sealed.body.session)
  {
    hide WellFormed, LastHash, TrailSession;
    ContextAt(trail, expected, i);
  }

  /** Which records are no events of the schema, wherever they stand. */
  lemma EnvelopeAnswers(trail: seq<Raw>, expected: string, i: nat)
    requires i < |trail|
    ensures VerdictAt(trail, expected, i).fault == Some(NotAnEvent) <==>
      !(&& trail[i].Record?
        && var s := trail[i].event.sealed;
        && s.formatVersion == "audit-chain.v3" && s.body.id != "" && s.body.session != "" && s.sequence >= 1
        && trail[i].event.chainHash != Genesis && s.semanticDigest != Genesis)
  {
    VerdictOfForeign(trail, expected, i);
    hide TrailSession, LastHash;
  }

  /** Which check a record of a trail of events fails first, by its fields and those of its predecessor. */
  lemma FaultAnswers(trail: seq<Raw>, expected: string, i: nat)
    requires AllEvents(trail) && i < |trail|
    ensures var events := Parsed(trail);
      var e := events[i];
      var previous := if i == 0 then Genesis else events[i - 1].chainHash;
      var session := if expected != "" then expected else events[0].sealed.body.session;
      VerdictAt(trail, expected, i) == Verdict(i, e.sealed.body.id,
        if e.sealed.body.session != session then Some(WrongSession)
        else if e.sealed.prevHash != previous then Some(WrongPrevHash)
        else if e.chainHash != ChainHash(previous, e.sealed) then Some(WrongChainHash)
        else if e.sealed.sequence != i + 1 then Some(WrongSequence)
        else if e.sealed.semanticDigest != ContentHash(e.sealed.formatVersion, e.sealed.body) then Some(WrongContentDigest)
        else None)
  {
    assert WellFormed(Parsed(trail)[i]);
    hide LastHash, TrailSession, WellFormed;
    ContextAt(trail, expected, i);
  }

  /**
   * The one-pass verifier equals the global specification. Its reason is null
   * exactly when every record is an event that links, one session speaks, recorded
   * times are sorted over all pairs with nothing recorded before it occurred, and,
   * in strict mode, all timestamp evidence is sound.
   */
  lemma ReasonNullIff(trail: seq<Raw>, strict: bool, expected: string, report: Report)
    requires Verified(trail, strict, expected, report)
    ensures report.reason.None? <==>
      && AllEvents(trail)
      && Authentic(Parsed(trail), expected)
      && Chronological(Parsed(trail))
      && (strict ==> EvidenceSound(Parsed(trail)))
  {
    hide LinkedAt, Chronological, Anomalous, VerdictAt, Positions, FirstFault, CheckImprint, LacksEvidence;
    if report.reason.None? {
      forall i | 0 <= i < |trail| ensures Parse(trail[i]).Some? {
        assert report.results[i].fault.None?;
        VerdictOfForeign(trail, expected, i);
      }
    }
    if AllEvents(trail) {
      CanonicalFull(trail);
      forall i | 0 <= i < |trail|
        ensures report.results[i].fault.None? <==>
          && LinkedAt(Parsed(trail), i)
          && Parsed(trail)[i].sealed.body.session ==
               (if expected != "" then expected else Parsed(trail)[0].sealed.body.session)
      {
        VerdictMeans(trail, expected, i);
      }
      assert !Fails(report.results, None) <==> Authentic(Parsed(trail), expected);
      EvidencePositions(Canonical(trail));
      AnomalyIff(Parsed(trail));
    }
  }

  lemma VerdictOfForeign(trail: seq<Raw>, expected: string, i: nat)
    requires i < |trail|
    ensures Parse(trail[i]).None? <==> VerdictAt(trail, expected, i).fault == Some(NotAnEvent)
    ensures VerdictAt(trail, expected, i).fault != Some(WrongFormat)
  {
  }

  lemma EvidencePositions(indexed: seq<Indexed>)
    ensures EvidenceSound(Events(indexed)) <==>
      && Positions(indexed, LacksEvidence) == [] && Positions(indexed, Mismatches) == []
      && Positions(indexed, RequiresToken) == [] && Positions(indexed, IsDowngraded) == []
  {
    hide CheckImprint, LacksEvidence;
    PositionsMean(indexed, LacksEvidence);
    PositionsMean(indexed, Mismatches);
    PositionsMean(indexed, RequiresToken);
    PositionsMean(indexed, IsDowngraded);
    var events := Events(indexed);
    if EvidenceSound(events) {
      forall i | 0 <= i < |indexed|
        ensures !LacksEvidence(indexed[i].event) && CheckImprint(indexed[i].event) == ImprintOk
      {
        assert events[i] == indexed[i].event;
      }
    }
  }

  /** Sorted over all pairs and no anomaly anywhere are the same. */
  lemma AnomalyIff(events: seq<Event>)
    ensures Chronological(events) <==> forall i :: 0 <= i < |events| ==> !Anomalous(events, i)
  {
    hide BadClock;
    if forall i :: 0 <= i < |events| ==> !Anomalous(events, i) {
      forall i | 0 <= i < |events|
        ensures !BadClock(events[i]) && events[i].sealed.recordedAt.epoch.Some?
      {
        assert !Anomalous(events, i);
        UsableClock(events[i]);
      }
      forall i, j | 0 <= i < j < |events|
        ensures events[i].sealed.recordedAt.epoch.value <= events[j].sealed.recordedAt.epoch.value
      {
        assert !Anomalous(events, j);
      }
    }
  }

  lemma UsableClock(e: Event)
    requires !BadClock(e)
    ensures e.sealed.recordedAt.epoch.Some? && e.sealed.body.occurredAt.epoch.Some?
    ensures e.sealed.body.occurredAt.epoch.value <= e.sealed.recordedAt.epoch.value
  {
  }

  /** The structural reasons, stated about the trail: a broken event outranks a foreign record. */
  lemma StructuralPriority(trail: seq<Raw>, strict: bool, expected: string, report: Report)
    requires Verified(trail, strict, expected, report)
    ensures report.reason == Some(ChainBreak) <==>
      exists i :: 0 <= i < |trail| && Parse(trail[i]).Some? && VerdictAt(trail, expected, i).fault.Some?
    ensures report.reason == Some(EnvelopeInvalid) <==> report.reason != Some(ChainBreak) && !AllEvents(trail)
  {
    hide ClockBreakAt, VerdictAt, Positions, FirstFault, Parse, LacksEvidence;
    forall i | 0 <= i < |trail|
      ensures Parse(trail[i]).None? <==> report.results[i].fault == Some(NotAnEvent)
      ensures report.results[i].fault != Some(WrongFormat)
      ensures report.results[i] == VerdictAt(trail, expected, i)
    {
      VerdictOfForeign(trail, expected, i);
    }
  }

  /** The timestamp reasons: a clock anomaly outranks all evidence, a required token is outranked by all. */
  lemma TimestampPriority(trail: seq<Raw>, strict: bool, expected: string, report: Report)
    requires Verified(trail, strict, expected, report)
    requires report.reason != Some(ChainBreak) && report.reason != Some(EnvelopeInvalid)
    ensures AllEvents(trail) && Authentic(Parsed(trail), expected)
    ensures report.reason == Some(ClockAnomaly) <==> !Chronological(Parsed(trail))
    ensures report.reason.Some? && report.reason != Some(ClockAnomaly) ==> strict && !EvidenceSound(Parsed(trail))
    ensures report.reason == Some(TokenRequired) ==>
      forall i :: 0 <= i < |trail| ==> !Mismatches(Parsed(trail)[i]) && !IsDowngraded(Parsed(trail)[i])
                                       && !LacksEvidence(Parsed(trail)[i])
  {
    hide Chronological, Anomalous, VerdictAt, Positions, FirstFault, Mismatches, IsDowngraded, RequiresToken,
         LacksEvidence, Parse, LinkedAt, EvidenceSound;
    StructuralPriority(trail, strict, expected, report);
    CanonicalFull(trail);
    AnomalyIff(Parsed(trail));
    EvidencePositions(Canonical(trail));
    PositionsMean(Canonical(trail), Mismatches);
    PositionsMean(Canonical(trail), IsDowngraded);
    PositionsMean(Canonical(trail), LacksEvidence);
    forall i | 0 <= i < |trail|
      ensures LinkedAt(Parsed(trail), i)
      ensures Parsed(trail)[i].sealed.body.session ==
                (if expected != "" then expected else Parsed(trail)[0].sealed.body.session)
    {
      assert report.results[i].fault.None?;
      VerdictMeans(trail, expected, i);
    }
    forall i | 0 <= i < |trail| && report.reason == Some(TokenRequired)
      ensures !Mismatches(Parsed(trail)[i]) && !IsDowngraded(Parsed(trail)[i]) && !LacksEvidence(Parsed(trail)[i])
    {
      assert Parsed(trail)[i] == Canonical(trail)[i].event;
    }
  }

  ghost predicate AnyEvent(events: seq<Event>, p: Event -> bool) {
    exists i :: 0 <= i < |events| && p(events[i])
  }

  lemma PositionsOfAll(trail: seq<Raw>, p: Event -> bool)
    requires AllEvents(trail)
    ensures Positions(Canonical(trail), p) != [] <==> AnyEvent(Parsed(trail), p)
  {
    hide Positions, Parse;
    CanonicalFull(trail);
    PositionsMean(Canonical(trail), p);
    var indexed, events := Canonical(trail), Parsed(trail);
    assert forall i :: 0 <= i < |trail| ==> indexed[i].event == events[i];
  }

  /** The evidence reasons of a strict verification, in their fixed order, stated about the events of the trail. */
  lemma EvidencePriority(trail: seq<Raw>, expected: string, report: Report)
    requires Verified(trail, true, expected, report)
    requires report.reason != Some(ChainBreak) && report.reason != Some(EnvelopeInvalid)
    requires AllEvents(trail) && Chronological(Parsed(trail))
    ensures var events := Parsed(trail);
      report.reason ==
        if AnyEvent(events, IsDowngraded) then Some(EvidenceDowngraded)
        else if AnyEvent(events, Mismatches) then Some(ImprintMismatch)
        else if AnyEvent(events, LacksEvidence) then Some(EvidenceMissing)
        else if AnyEvent(events, RequiresToken) then Some(TokenRequired)
        else None
  {
    hide Positions, Parse, Chronological, FirstFault, VerdictAt, LinkedAt;
    StructuralPriority(trail, true, expected, report);
    TimestampPriority(trail, true, expected, report);
    PositionsOfAll(trail, IsDowngraded);
    PositionsOfAll(trail, Mismatches);
    PositionsOfAll(trail, LacksEvidence);
    PositionsOfAll(trail, RequiresToken);
  }

  // ---- Strict evidence, by the fields of the events ----

  /** The event kinds that a strict verification asks evidence of. */
  ghost predicate NamesDecisionOrLifecycle(name: string) {
    || name == "decision" || name == "lifecycle"
    || (exists suffix :: name == "decision:" + suffix)
    || (exists suffix :: name == "lifecycle:" + suffix)
  }

  lemma CriticalIff(name: string)
    ensures CriticalName(name) <==> NamesDecisionOrLifecycle(name)
  {
    var decision, lifecycle := "decision:", "lifecycle:";
    if StartsWith(name, decision) { assert name == decision + name[|decision|..]; }
    if StartsWith(name, lifecycle) { assert name == lifecycle + name[|lifecycle|..]; }
    if suffix :| name == "decision:" + suffix { assert name[..|decision|] == decision; }
    if suffix :| name == "lifecycle:" + suffix { assert name[..|lifecycle|] == lifecycle; }
  }

  /** The statuses a critical event must have one of, and a TSA payload must come with one of. */
  const TRUSTED: set<Status> := {NtpChecked, TsaStamped, TsaVerified}
  const STAMPED: set<Status> := {TsaStamped, TsaVerified}

  /** What is wrong with the evidence of one sealed event, if anything, by its fields. */
  ghost function EvidenceFault(e: Event): set<Code> {
    var evidence := e.sealed.evidence;
    var content := ContentHash(e.sealed.formatVersion, e.sealed.body);
    (if NamesDecisionOrLifecycle(e.sealed.body.event) && (evidence.None? || evidence.value.status !in TRUSTED)
     then {EvidenceMissing} else {})
    + (match evidence
       case Some(Evidence(status, Some(Tsa(token, imprint, _)), _)) =>
         if status !in STAMPED then {EvidenceDowngraded}
         else if token != "" then {TokenRequired}
         else if imprint != Some(content) || e.sealed.semanticDigest != content then {ImprintMismatch}
         else {}
       case _ => {})
  }

  lemma EvidenceFaultMeans(e: Event)
    ensures LacksEvidence(e) <==> EvidenceMissing in EvidenceFault(e)
    ensures IsDowngraded(e) <==> EvidenceDowngraded in EvidenceFault(e)
    ensures Mismatches(e) <==> ImprintMismatch in EvidenceFault(e)
    ensures RequiresToken(e) <==> TokenRequired in EvidenceFault(e)
    ensures EvidenceFault(e) <= {EvidenceMissing, EvidenceDowngraded, ImprintMismatch, TokenRequired}
  {
    CriticalIff(e.sealed.body.event);
    hide CriticalName, NamesDecisionOrLifecycle;
  }

  ghost predicate AnyFault(events: seq<Event>, code: Code) {
    exists i :: 0 <= i < |events| && code in EvidenceFault(events[i])
  }

  /**
   * A strict verification of a trail that is authentic and chronological: the reason is
   * the first of downgraded, mismatch, missing and token that the fields of some event
   * give rise to; none exactly when no event has a fault.
   */
  lemma StrictReason(trail: seq<Raw>, expected: string, report: Report)
    requires Verified(trail, true, expected, report)
    requires AllEvents(trail) && Authentic(Parsed(trail), expected) && Chronological(Parsed(trail))
    ensures var events := Parsed(trail);
      report.reason ==
        if AnyFault(events, EvidenceDowngraded) then Some(EvidenceDowngraded)
        else if AnyFault(events, ImprintMismatch) then Some(ImprintMismatch)
        else if AnyFault(events, EvidenceMissing) then Some(EvidenceMissing)
        else if AnyFault(events, TokenRequired) then Some(TokenRequired)
        else None
    ensures report.reason.None? <==> forall i :: 0 <= i < |trail| ==> EvidenceFault(Parsed(trail)[i]) == {}
  {
    var events := Parsed(trail);
    AuthenticReason(trail, true, expected, report);
    hide Verified, Authentic, Chronological, Parse, EvidenceFault, LacksEvidence, IsDowngraded, Mismatches, RequiresToken;
    EvidencePriority(trail, expected, report);
    forall i | 0 <= i < |events|
      ensures LacksEvidence(events[i]) <==> EvidenceMissing in EvidenceFault(events[i])
      ensures IsDowngraded(events[i]) <==> EvidenceDowngraded in EvidenceFault(events[i])
      ensures Mismatches(events[i]) <==> ImprintMismatch in EvidenceFault(events[i])
      ensures RequiresToken(events[i]) <==> TokenRequired in EvidenceFault(events[i])
      ensures EvidenceFault(events[i]) <= {EvidenceMissing, EvidenceDowngraded, ImprintMismatch, TokenRequired}
    {
      EvidenceFaultMeans(events[i]);
    }
    SameAny(events, IsDowngraded, EvidenceDowngraded);
    SameAny(events, Mismatches, ImprintMismatch);
    SameAny(events, LacksEvidence, EvidenceMissing);
    SameAny(events, RequiresToken, TokenRequired);
    hide AnyFault, AnyEvent;
    NoFaultIff(events);
  }

  lemma NoFaultIff(events: seq<Event>)
    ensures !AnyFault(events, EvidenceDowngraded) && !AnyFault(events, ImprintMismatch)
            && !AnyFault(events, EvidenceMissing) && !AnyFault(events, TokenRequired) <==>
      forall i :: 0 <= i < |events| ==> EvidenceFault(events[i]) == {}
  {
    forall i | 0 <= i < |events|
      ensures EvidenceFault(events[i]) <= {EvidenceMissing, EvidenceDowngraded, ImprintMismatch, TokenRequired}
    {
      EvidenceFaultMeans(events[i]);
    }
    hide EvidenceFault;
    forall i, code | 0 <= i < |events| && code in EvidenceFault(events[i]) ensures AnyFault(events, code) {
    }
  }

  lemma SameAny(events: seq<Event>, p: Event -> bool, code: Code)
    requires forall i :: 0 <= i < |events| ==> (p(events[i]) <==> code in EvidenceFault(events[i]))
    ensures AnyEvent(events, p) <==> AnyFault(events, code)
  {
    hide EvidenceFault;
  }

  /** A trail that is authentic breaks no chain and no envelope. */
  lemma AuthenticReason(trail: seq<Raw>, strict: bool, expected: string, report: Report)
    requires Verified(trail, strict, expected, report) && AllEvents(trail) && Authentic(Parsed(trail), expected)
    ensures report.reason != Some(ChainBreak) && report.reason != Some(EnvelopeInvalid)
  {
    StructuralPriority(trail, strict, expected, report);
    hide Verified, Parse, VerdictAt;
    forall i | 0 <= i < |trail| ensures VerdictAt(trail, expected, i).fault.None? {
      VerdictMeans(trail, expected, i);
    }
  }

  // ---- One hash pins the history ----

  lemma {:induction false} AuthenticEventsPinned(a: seq<Event>, b: seq<Event>)
    requires forall i :: 0 <= i < |a| ==> LinkedAt(a, i)
    requires forall i :: 0 <= i < |b| ==> LinkedAt(b, i)
    requires PrevHash(a, |a|) == PrevHash(b, |b|)
    ensures a == b
  {
    HeadKind(a);
    HeadKind(b);
    if a != [] {
      var m, n := |a| - 1, |b| - 1;
      assert LinkedAt(a, m) && LinkedAt(b, n);
      forall i | 0 <= i < m ensures LinkedAt(a[..m], i) {
        assert LinkedAt(a, i);
      }
      forall i | 0 <= i < n ensures LinkedAt(b[..n], i) {
        assert LinkedAt(b, i);
      }
      AuthenticEventsPinned(a[..m], b[..n]);
      assert a == a[..m] + [a[m]] && b == b[..n] + [b[n]];
    }
  }

  lemma HeadKind(events: seq<Event>)
    requires forall i :: 0 <= i < |events| ==> LinkedAt(events, i)
    ensures PrevHash(events, |events|) == Genesis <==> events == []
  {
    assert events != [] ==> LinkedAt(events, |events| - 1);
  }

  /**
   * Two trails that verify, in any mode and for any expected session, and end in
   * the same chain hash hold the same events: no edit, insertion, deletion,
   * truncation or reordering keeps the head. Only keys the schema drops are free.
   */
  lemma HeadPinsHistory(
    a: seq<Raw>, b: seq<Raw>, strictA: bool, strictB: bool, expectedA: string, expectedB: string,
    reportA: Report, reportB: Report)
    requires Verified(a, strictA, expectedA, reportA) && reportA.reason.None?
    requires Verified(b, strictB, expectedB, reportB) && reportB.reason.None?
    requires LastHash(a) == LastHash(b)
    ensures AllEvents(a) && AllEvents(b) && Parsed(a) == Parsed(b)
    ensures (forall i :: 0 <= i < |a| && i < |b| ==> a[i].dropped == b[i].dropped) ==> a == b
  {
    hide Verified, LinkedAt, WellFormed;
    ReasonNullIff(a, strictA, expectedA, reportA);
    ReasonNullIff(b, strictB, expectedB, reportB);
    CanonicalFull(a);
    CanonicalFull(b);
    AuthenticEventsPinned(Parsed(a), Parsed(b));
    if forall i :: 0 <= i < |a| && i < |b| ==> a[i].dropped == b[i].dropped {
      forall i | 0 <= i < |a| ensures a[i] == b[i] {
        assert Parsed(a)[i] == Parsed(b)[i];
        assert a[i] == Record(Parsed(a)[i], a[i].dropped);
      }
    }
  }

  /** The head does not pin the keys the schema drops: two records, one verified event. */
  lemma DroppedKeysAreUnpinned(e: Event, x: string, y: string)
    requires x != y
    ensures [Record(e, x)] != [Record(e, y)]
    ensures LastHash([Record(e, x)]) == LastHash([Record(e, y)])
    ensures VerdictAt([Record(e, x)], "", 0) == VerdictAt([Record(e, y)], "", 0)
  {
    var a, b := [Record(e, x)], [Record(e, y)];
    assert a[..0] == b[..0];
    CanonicalSnoc(a, 0);
    CanonicalSnoc(b, 0);
    assert a[..1] == a && b[..1] == b;
    assert a[0].dropped != b[0].dropped;
  }

  const NOON := Timestamp("1970-01-01T00:00:00Z", Some(0))
  const NOTE := Body("e1", "s1", "note", NOON, "")
  const FIRST_SEALED := Sealed(CURRENT_FORMAT, NOTE, None, 1, NOON, Genesis, ContentHash(CURRENT_FORMAT, NOTE))
  const FIRST_EVENT := Event(FIRST_SEALED, ChainHash(Genesis, FIRST_SEALED))

  /** Such records, both of which verify: a trail of one event, without and with a dropped key. */
  lemma DroppedKeyVerifies(plain: Report, extended: Report)
    requires Verified([Record(FIRST_EVENT, "")], true, "", plain)
    requires Verified([Record(FIRST_EVENT, "note")], true, "", extended)
    ensures plain.reason.None? && extended.reason.None?
    ensures Record(FIRST_EVENT, "") != Record(FIRST_EVENT, "note")
  {
    ReasonNullIff([Record(FIRST_EVENT, "")], true, "", plain);
    ReasonNullIff([Record(FIRST_EVENT, "note")], true, "", extended);
    hide Verified;
    FirstEventIsSound("");
    FirstEventIsSound("note");
  }

  lemma FirstEventIsSound(dropped: string)
    ensures var trail := [Record(FIRST_EVENT, dropped)];
      AllEvents(trail) && Authentic(Parsed(trail), "") && Chronological(Parsed(trail)) && EvidenceSound(Parsed(trail))
  {
    FirstEventIsWellFormed();
    assert Parsed([Record(FIRST_EVENT, dropped)]) == [FIRST_EVENT];
  }

  lemma FirstEventIsWellFormed()
    ensures WellFormed(FIRST_EVENT)
  {
  }
}
