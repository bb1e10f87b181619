/**
 * Audit-chain.v3 records and their two digests (src/audit/event-core.ts,
 * src/audit/canonical-digest.ts, src/state/evidence-audit.ts).
 *
 * A hash is a free constructor over what is hashed: equal hashes mean equal
 * inputs, and the genesis marker is no hash.
 */
module AuditEvents {
  import opened Results

  const CURRENT_FORMAT := "audit-chain.v3"

  /** A timestamp string with the UTC instant it parses to, if it parses. */
  datatype Timestamp = Timestamp(text: string, epoch: Option<int>)

  /** Semantic content: everything producers supply except timestamp evidence. */
  datatype Body = Body(
    id: string,
    session: string,
    event: string,
    occurredAt: Timestamp,
    rest: string)

  datatype Status = Local | NtpChecked | TsaStamped | TsaVerified | TsaFailed

  /** TSA payload: the token is empty in the internal-imprint model. */
  datatype Tsa = Tsa(token: string, imprint: Option<Hash>, rest: string)

  datatype Evidence = Evidence(status: Status, tsa: Option<Tsa>, rest: string)

  datatype Hash =
    | Genesis
    | ContentHash(formatVersion: string, body: Body)
    | ChainHash(prev: Hash, sealed: Sealed)
    | OtherHash(text: string)

  /** An event without its chainHash: what the chain hash covers, beside the previous hash. */
  datatype Sealed = Sealed(
    formatVersion: string,
    body: Body,
    evidence: Option<Evidence>,
    sequence: int,
    recordedAt: Timestamp,
    prevHash: Hash,
    semanticDigest: Hash)

  datatype Event = Event(sealed: Sealed, chainHash: Hash)

  /**
   * One stored record: an event with the unknown keys inside its nested objects,
   * which the schema drops, or JSON that is not an audit event.
   */
  datatype Raw = Record(event: Event, dropped: string) | Foreign(id: Option<string>)

  /** The part of the event schema that the types do not carry. */
  predicate WellFormed(e: Event) {
    && e.sealed.formatVersion == CURRENT_FORMAT
    && e.sealed.body.id != "" && e.sealed.body.session != ""
    && e.sealed.sequence > 0
    && e.chainHash != Genesis && e.sealed.semanticDigest != Genesis
  }

  /** AuditEvent.safeParse. */
  function Parse(raw: Raw): Option<Event> {
    match raw
    case Record(event, _) => if WellFormed(event) then Some(event) else None
    case Foreign(_) => None
  }

  /** computeCanonicalEventDigest: position, evidence and hashes are no part of it. */
  function ContentDigest(s: Sealed): Hash {
    ContentHash(s.formatVersion, s.body)
  }

  /** computeChainHash: the previous hash and the whole event without its chainHash. */
  function ComputeChainHash(prev: Hash, s: Sealed): Hash {
    ChainHash(prev, s)
  }

  // ---- The digest on plain records ----

  const EXCLUDED: set<string> :=
    {"chainHash", "auditSequence", "recordedAt", "timestampEvidence", "semanticEventDigest", "prevHash"}

  /** canonicalEventContent: copy every field the digest does not exclude, in the given key order. */
  method StripExcluded<V>(event: map<string, V>, keys: seq<string>) returns (stripped: map<string, V>)
    requires forall k :: k in keys <==> k in event
    ensures stripped == event - EXCLUDED
  {
    stripped := map[];
    for i := 0 to |keys|
      invariant stripped == map k | k in event && k in keys[..i] && k !in EXCLUDED :: event[k]
    {
      assert keys[..i + 1] == keys[..i] + [keys[i]];
      if keys[i] !in EXCLUDED {
        stripped := stripped[keys[i] := event[keys[i]]];
      }
    }
    assert keys[..|keys|] == keys;
  }

  /** Two records have one content exactly when they differ in excluded fields only. */
  lemma StrippedEqualIff<V>(a: map<string, V>, b: map<string, V>)
    ensures a - EXCLUDED == b - EXCLUDED <==>
      forall k :: k !in EXCLUDED ==> (k in a <==> k in b) && (k in a ==> a[k] == b[k])
  {
    if a - EXCLUDED == b - EXCLUDED {
      forall k | k !in EXCLUDED ensures (k in a <==> k in b) && (k in a ==> a[k] == b[k]) {
        assert k in a <==> k in a - EXCLUDED;
        assert k in b <==> k in b - EXCLUDED;
        if k in a {
          assert (a - EXCLUDED)[k] == a[k];
        }
      }
    }
  }

  datatype Field = Text(text: string) | Instant(at: Timestamp) | Number(n: int) | Attached(evidence: Evidence) | Digest(hash: Hash)

  /** An event as the plain record it is stored as; `detail` stands for the rest of its body. */
  function Plain(e: Event): map<string, Field> {
    var s := e.sealed;
    var fields := map[
      "auditFormatVersion" := Text(s.formatVersion),
      "id" := Text(s.body.id),
      "flowguardSessionId" := Text(s.body.session),
      "event" := Text(s.body.event),
      "occurredAt" := Instant(s.body.occurredAt),
      "detail" := Text(s.body.rest),
      "auditSequence" := Number(s.sequence),
      "recordedAt" := Instant(s.recordedAt),
      "prevHash" := Digest(s.prevHash),
      "semanticEventDigest" := Digest(s.semanticDigest),
      "chainHash" := Digest(e.chainHash)];
    if s.evidence.Some? then fields["timestampEvidence" := Attached(s.evidence.value)] else fields
  }

  /** The content digest of an event is that of its stripped record. */
  lemma ContentIsStripped(a: Event, b: Event)
    ensures ContentDigest(a.sealed) == ContentDigest(b.sealed) <==> Plain(a) - EXCLUDED == Plain(b) - EXCLUDED
  {
    var x, y := Plain(a) - EXCLUDED, Plain(b) - EXCLUDED;
    SemanticFields(a);
    SemanticFields(b);
    hide Plain;
    if x == y {
      assert x["auditFormatVersion"] == y["auditFormatVersion"] && x["id"] == y["id"];
      assert x["flowguardSessionId"] == y["flowguardSessionId"] && x["event"] == y["event"];
      assert x["occurredAt"] == y["occurredAt"] && x["detail"] == y["detail"];
    }
  }

  lemma SemanticFields(e: Event)
    ensures Plain(e) - EXCLUDED == map[
      "auditFormatVersion" := Text(e.sealed.formatVersion),
      "id" := Text(e.sealed.body.id),
      "flowguardSessionId" := Text(e.sealed.body.session),
      "event" := Text(e.sealed.body.event),
      "occurredAt" := Instant(e.sealed.body.occurredAt),
      "detail" := Text(e.sealed.body.rest)]
  {
  }
}
