# FlowGuard durable authority

A Dafny model of the parts of FlowGuard that decide what is authoritative after crashes,
concurrent processes and untrusted input: the governance activation journal, the
hash-chained audit trail, durable writes and lockfiles, the evidence-approval write
boundary, installer rollback, and the parsers and arithmetic that feed them. All claims
are for every input, every interleaving or every run of the model; the main ones are
marked **main** in the table.

`dafny verify dfyconfig.toml` checks the whole project.

## How it is organised

| files | subject |
|---|---|
| `GovernanceRecords`, `GovernanceJournal`, `GovernanceStore` | revisions and their admissible transitions; the verifying reader and the commit as functions of a store, and the class that runs them write by write |
| `GovernanceProtocol`, `GovernanceAnswers`, `GovernanceRuns`, `GovernanceReader`, `GovernanceBound`, `RootListing` | Start and End as two commits with crashes; what they answer, by the fields of record and request; whole runs; the lock-free reader read by read; the 10000-revision bound; the catalogue of active roots |
| `AuditEvents`, `AuditVerify`, `AuditTheorems`, `AuditAppend`, `AuditRuns` | records and digests; the one-pass verifier; what its verdict means; the append authority; its runs on a file system that loses power |
| `DurableWrite`, `LockBody`, `LockProtocol` | a crash file system and file replacement on it; lock bodies; the lockfile protocol call by call |
| `ApprovalGuard`, `ApprovalAnswers`, `ApprovalRuns`, `ApprovalCrashes` | one guarded state write; what the guard answers, by the fields of states and receipts; sequences of writes; the same through power losses |
| `Rollback`, `RollbackTheorems`, `InstallJournal`, `InstallFailure` | undoing a journal; exactness; installation runs; a failing call |
| `GitHeader`, `RepositoryChange`, `PatchPrinting`, `Porcelain` | patch headers, patches, their sections as written, status output |
| `Bits`, `Ipv4`, `Ipv6Text`, `Ipv6Private` | mask arithmetic, address text, private ranges |
| `ImprintBytes`, `Doubles`, `NtpClock`, `ArchiveDigest` | byte comparison, double-precision rounding, clock check, archive digest |
| `Results`, `Strings`, `PaddedKeys` | shared: results, JavaScript string operations, padded decimal keys |

Code that updates state step by step is a class or a method with loops, proved equal to a
function of its inputs or its old state; the lemmas are about those functions. In lemma
bodies, `hide` keeps definitions out of proofs that do not need them.

## What is assumed

- Digests are free constructors over what they digest, so equal digests mean equal inputs;
  canonical JSON is injective. SHA-256 itself is not part of this model.
- Clocks, random identifiers, operating-system answers, crashes and the timing of other
  processes are parameters or nondeterministic steps, quantified universally.
- The authorization port and the preparation callback of Start and End are arbitrary
  functions of what they are given.
- A process id that is dead stays dead; the operating system does not give it out again.
- A crash keeps, for every name, any directory entry it had since its directory was last
  synced, and the content of a file only if the file was synced.
- One JavaScript addition, subtraction or division in the clock check is the exact operation
  rounded to double precision; scaling by powers of two is exact. `Date.parse` is an
  arbitrary partial function.

## Where the code does less than its documentation says

Each of these is a proved statement with a concrete input or run, and the exact condition
under which the property holds.

- The reader verifies at most 10000 revisions, but no commit counts them: the Start that
  passes the bound commits its first revision and leaves a session every later read of
  which is blocked (`GovernanceBound.StartNeedsRoom`, `BoundIsReached`, `StartAfterCycles`).
- Stale-lock takeover checks the body again and then unlinks, in two calls. Between them
  another process may take over, and then two live processes hold the lock
  (`LockProtocol.TakeoverRace`). A body torn inside its pid is judged by another process's
  pid (`LockBody.CutBodyStaleIff`), and then not even a gap is needed
  (`LockProtocol.TornBodyRace`). An agent about to unlink breaks exclusion exactly when its
  unlink hits a live owner's file (`LockProtocol.UnlinkBreaksExclusionIff`), exclusion holds
  on all runs if and only if none has such an unlink (`LockProtocol.ExclusionIff`), and which
  fresh starts are safe follows from the pids alone (`LockProtocol.FreshExclusionIff`).
- A creator that dies, or whose write fails, before its body shows a pid blocks the lock for
  good, because such a body counts as live (`LockProtocol.HalfWrittenLockIsFinal`,
  `CreatorMayDie`, `WriteMayFail`).
- A durable write can report failure although the new content is already visible, exactly
  when the directory sync is what failed (`DurableWrite.FailedButVisibleIff`,
  `FailedButVisible`).
- A redelivered audit event is acknowledged from what is visible, without a sync. If the
  rename that made it visible was never synced, a power loss takes an acknowledged event
  back (`AuditRuns.AcknowledgedAndLost`); an acknowledgement survives exactly when the
  directory was synced by or after that rename (`AuditRuns.AcknowledgementSurvivesIff`).
- The installer records a change after making it. If the call that makes it fails half way,
  the rollback does not undo it: the whole tree is restored exactly when the path was
  recorded before or is as it was (`InstallFailure.RollbackAloneIff`). A truncated file is
  lost (`TruncatedFileIsLost`), and a new directory is reported as holding foreign content
  (`NewDirectoryIsReported`).
- Appending to a trail whose last line is not terminated runs two records into one line and
  makes the trail unreadable (`AuditAppend.AppendedLineParses`, `UnterminatedTrail`).
- A chain head does not pin the unknown keys inside nested objects, which the schema drops
  (`AuditTheorems.DroppedKeysAreUnpinned`, `DroppedKeyVerifies`); everything else it pins
  (`AuditTheorems.HeadPinsHistory`).
- `isPrivateIPv6` also reports addresses outside the private ranges: those whose first
  hextet has fewer than four digits and merely begins with the letters of a private prefix
  (`Ipv6Private.PrivateIff`, `ShortHextetLooksPrivate`).
- The archive digest covers the multiset of file digests but not which file has which
  (`ArchiveDigest.ContentsMayBeExchanged`; `DigestPins` says what it pins).
- Normalising a repository path removes one leading `./` only, so it is idempotent exactly
  when there is at most one (`Porcelain.NormalizeIdempotentIff`, `NormalizeTwice`).
- `constantTimeBytesEqual` folds lengths as 32-bit integers and pads with zeros, so arrays
  that differ by a multiple of four gigabytes of zeros compare equal
  (`ImprintBytes.PaddedEqualIff`, `EmptyEqualsZeros`); otherwise it is equality.
- Timestamps are computed in double precision, so a written and read millisecond time
  misses the resolution of the format unless it is a multiple of an eighth of a second
  (`NtpClock.TimestampRoundTrip`, `MillisecondIsInexact`).

## Model

| member | source | states |
|---|---|---|
| GovernanceRecords.RootHistoryShape | src/machine/governance-activation.ts:7-135 | every admissible root history is the fixed cycle activating, active, ending, inactive: its i-th record has the i-th status and generation i/4+1, one decision per Start or End pair, one activation and binding per cycle |
| GovernanceRecords.ChildHistoryShape | src/machine/governance-activation.ts:61-109 | a delegated child never leaves active, never changes its decision, parent or activation, and is never its own root |
| GovernanceJournal.ReadIffStored | src/adapters/governance-activation.ts:174-271 | **main**: the reader accepts exactly the stores that hold revisions 1..n, digest-linked, admissible, without decision replay, with matching head and enrollment marker and nothing beyond, and returns exactly that history |
| GovernanceJournal.FaultFree | src/adapters/governance-activation.ts:256-271 | the validation pass finds no fault exactly when every adjacent pair is admissible and no decision opens two revisions |
| GovernanceJournal.CommitIsAtomic | src/adapters/governance-activation.ts:336-374 | **main**: cut off after any number of its writes, a commit leaves the old journal, a journal every reader refuses, or the old journal plus the record; past 10000 revisions even the complete commit is refused to readers |
| GovernanceJournal.PlannedRecord | src/adapters/governance-activation.ts:612-639 | a commit that passes its checks carries the next revision number, the action's status, the requested scope, a link to the last record, and a decision no record of the history used if it opens one |
| GovernanceJournal.StoredReads | src/adapters/governance-activation.ts:228-254 | a stored valid history is read back up to 10000 revisions and refused beyond |
| GovernanceStore.ValidateHistory | src/adapters/governance-activation.ts:256-271 | the loop with previous record and decision set returns the first fault, and none exactly for admissible histories without replay |
| GovernanceStore.ActivationStore.ReadHistory | src/adapters/governance-activation.ts:228-254 | the backward walk with its running expected digest computes the recursive history reader |
| GovernanceStore.ActivationStore.Read | src/adapters/governance-activation.ts:174-209 | the imperative reader computes the journal that the characterised reader function gives |
| GovernanceStore.ActivationStore.CommitLocked | src/adapters/governance-activation.ts:336-374 | checks, then enrollment, revision and head writes in this order, each possibly the last before a crash: the new store and outcome are those of the specified commit |
| GovernanceStore.ActivationStore.Start | src/adapters/governance-activation.ts:499-555 | the imperative Start computes the specified two-commit protocol for every crash point |
| GovernanceStore.ActivationStore.CompleteStart | src/adapters/governance-activation.ts:582-610 | the second commit of a Start, under the pending revision's own scope |
| GovernanceStore.ActivationStore.End | src/adapters/governance-activation.ts:400-443 | the imperative End computes the specified two-commit protocol for every crash point |
| GovernanceStore.ActivationStore.CompleteEnd | src/adapters/governance-activation.ts:445-473 | the second commit of an End, under the pending revision's own scope |
| GovernanceProtocol.StartCutAndResumed | src/adapters/governance-activation.ts:476-610 | **main**: a Start cut off anywhere leaves the old journal, a blocked one, one ending in ACTIVATING or the finished one; cut between its commits, a retry ends in the very store of an undisturbed Start, under the same activation id |
| GovernanceProtocol.EndCutAndResumed | src/adapters/governance-activation.ts:391-473 | **main**: the same for End, with ENDING and INACTIVE under one new decision |
| GovernanceProtocol.ResumeStartIff | src/adapters/governance-activation.ts:537-610 | an interrupted Start is completed exactly when the binding is unchanged and the port returns the pending decision with its channel and actor; otherwise the retry writes nothing |
| GovernanceProtocol.ResumeEndIff | src/adapters/governance-activation.ts:416-473 | the same for an interrupted End |
| GovernanceProtocol.RepeatsWriteNothing | src/adapters/governance-activation.ts:435-443 | Start on an active scope, End on an inactive one and both on a delegated child write nothing, with the specified answers |
| GovernanceProtocol.StartTwice | src/adapters/governance-activation.ts:499-555 | a Start that ran to its end, called again with any identifier, port and crash point, answers already active with the same record and writes nothing |
| GovernanceProtocol.BlockedJournalRefuses | src/adapters/governance-activation.ts:557-568 | a journal no reader accepts is never written by Start or End |
| GovernanceAnswers.StartAnswers | src/adapters/governance-activation.ts:500-583 | **main**: what Start answers on every scope that has records, by the fields of the last record and of the request: refused for a child and for an ending scope, already active exactly for an active root and the same session, directory, worktree and policy, and in which cases another session or binding is refused; nothing is written |
| GovernanceAnswers.FirstStartAnswers | src/adapters/governance-activation.ts:509-518 | on an empty journal a request for another session is refused |
| GovernanceAnswers.EndAnswers | src/adapters/governance-activation.ts:400-470 | **main**: the same for End: already inactive exactly for an empty or resting root scope, refused for a child, a starting scope and any other binding |
| GovernanceAnswers.SameFieldsResume | src/adapters/governance-activation.ts:585-610 | a retry with the same fields under the port's same decision completes an interrupted Start or End |
| GovernanceAnswers.StartAcceptedIff | src/adapters/governance-activation.ts:612-639 | **main**: exactly when the first commit of a Start is accepted: expected revision, scope empty or at rest, complete binding, new activation, identified operator, decision never used |
| GovernanceAnswers.EndAcceptedIff | src/adapters/governance-activation.ts:612-639 | exactly when the first commit of an End is accepted: expected revision, active root, same binding, identified operator, decision never used |
| GovernanceAnswers.ChildEnrolledIff | src/machine/governance-activation.ts:61-109 | exactly when a child session is first enrolled |
| GovernanceAnswers.ChildEnrolledAgainIff | src/machine/governance-activation.ts:61-109 | exactly when it is enrolled again: its own activation, binding and decision, by another message or call of the same parent |
| GovernanceAnswers.MarkerIsNeeded | src/adapters/governance-activation.ts:194-205 | a journal with records is readable under exactly one enrollment marker: its session with its first activation |
| GovernanceAnswers.HeadAnswers | src/adapters/governance-activation.ts:174-197 | what the head alone decides: a missing one, a foreign one, and one that a later revision outruns |
| GovernanceRuns.CommittedHistoryIsPrefix | src/adapters/governance-activation.ts:174-374 | **main**: in any run of commits, crashes and foreign writes from any store, a history accepted once is a prefix of every history accepted later |
| GovernanceRuns.TornCommitFailsClosed | src/adapters/governance-activation.ts:181-197 | **main**: after a writer died between its first and last write, every later read in the run is blocked and the session's keys never change again |
| GovernanceRuns.TornJournalIsFinal | src/adapters/governance-activation.ts:336-374 | with no writer at work, a journal no reader accepts stays as it is along every run |
| GovernanceRuns.BusyReads | src/adapters/governance-activation.ts:181-197 | while a commit is under way readers see the base journal before its first write and are blocked until its last |
| GovernanceRuns.ReadFrame | src/adapters/governance-activation.ts:48-61 | writes under other sessions' keys cannot change what a session reads as |
| GovernanceReader.ReadIsLinearizable | src/adapters/governance-activation.ts:174-209 | **main**: for every interleaving of the reader's separate reads with commits, crashes and foreign writes, a reader that is not blocked returns the journal committed at some instant after its first read and before its answer |
| GovernanceReader.QuietReadIsReadJournal | src/adapters/governance-activation.ts:174-209 | on an unchanging store the reader that reads step by step is the reader function |
| GovernanceBound.StartNeedsRoom | src/adapters/governance-activation.ts:236-237 | **main**: a fully authorized Start leaves a readable active journal exactly when the journal held fewer than 10000 revisions; at the bound it makes the session unreadable |
| GovernanceBound.BoundIsReached | src/adapters/governance-activation.ts:236-237 | a startable journal of every length 4k up to 10000 exists, reached by completed cycles of one session |
| GovernanceBound.StartAfterCycles | src/adapters/governance-activation.ts:236-237 | concretely: an inactive, readable scope started after any number of complete cycles with everything granted becomes active below 10000 revisions; at 10000 the call is refused half way and the session is unreadable |
| RootListing.ActiveIff | src/adapters/governance-activation.ts:273-290 | a session resolves to an active record exactly when its keys hold a valid history that ends in that active record |
| RootListing.ResolveAnswers | src/adapters/governance-activation.ts:273-292 | what a readable history resolves to, by the status of its last record |
| RootListing.ResolutionAfterCut | src/adapters/governance-activation.ts:273-374 | wherever a commit is cut off, resolution gives the old answer, the new answer or blocked |
| RootListing.ListActiveGovernanceRoots | src/adapters/governance-activation.ts:92-135 | the page loop terminates whenever cursors come from a finite set, even if they repeat, and returns what the pages contribute up to the last, an unreadable or a repeated cursor |
| RootListing.OddKeysAreReported | src/adapters/governance-activation.ts:136-158 | a key that only ends like a head's is reported as no head, and other keys are passed over |
| RootListing.ListingIsExact | src/adapters/governance-activation.ts:92-145 | **main**: over a store that pages properly the listing holds every active root of the store once and nothing else, for any number of pages |
| RootListing.ListedWasActive | src/adapters/governance-activation.ts:92-145 | over a store that others write meanwhile, whatever the pages, every record listed was its session's active authority at some instant inside the read of that session |
| PaddedKeys.PaddedOrder | src/adapters/governance-activation.ts:157-159 | string order of 16-digit padded revision keys is number order below 10^16 |
| PaddedKeys.PaddedOrderFailsAt16Digits | src/adapters/governance-activation.ts:157-159 | 10^16 sorts before its predecessor, so the bound is exact |
| AuditEvents.StripExcluded | src/audit/canonical-digest.ts:48-55 | the copying loop removes exactly the excluded fields |
| AuditEvents.StrippedEqualIff | src/audit/canonical-digest.ts:38-68 | two records have the same digested content exactly when they differ in excluded fields only |
| AuditEvents.ContentIsStripped | src/audit/canonical-digest.ts:38-68 | two events have one content digest exactly when their stored records, stripped of the excluded fields, are equal |
| AuditVerify.VerifyMonotonicity | src/audit/timestamp-verification.ts:79-117 | comparing neighbours only, the loop finds the first event that is unusable or recorded before any earlier one; none exactly when recordedAt is sorted over all pairs and nothing is recorded before it occurred |
| AuditVerify.ScanRecords | src/audit/integrity.ts:302-337 | the record loop gives every record the verdict of its global context, the schema-valid events with original positions, and the first failure overall and per class |
| AuditVerify.Track | src/audit/integrity.ts:376-387 | the failure tracker keeps the first failure overall, of the chain and of the envelope |
| AuditVerify.VerifyChain | src/audit/integrity.ts:286-354 | **main**: one pass computes all verdicts, the first break, the clock break at its original position, the evidence positions in strict mode and the reason by the fixed priority |
| AuditVerify.PositionsMean | src/audit/integrity.ts:416-446 | the reported positions are exactly the original positions of the events with the property |
| AuditTheorems.ReasonNullIff | src/audit/integrity.ts:286-497 | **main**: the verdict is valid exactly when every record is an event, every record links, one session speaks, recorded times are sorted with nothing recorded before it occurred, and strict evidence is sound |
| AuditTheorems.VerdictMeans | src/audit/integrity.ts:190-268 | a record's verdict is clean exactly when it is the record the append authority would have sealed there, in the trail's session |
| AuditTheorems.FaultAnswers | src/audit/integrity.ts:190-268 | which check a record fails first, by its fields and those of its predecessor |
| AuditTheorems.EnvelopeAnswers | src/audit/integrity.ts:302-318 | which records are no events of the schema, by their fields |
| AuditTheorems.StructuralPriority | src/audit/integrity.ts:472-478 | the reason is a chain break exactly when some event fails its check, and an invalid envelope exactly when none does and some record is no event |
| AuditTheorems.TimestampPriority | src/audit/integrity.ts:480-497 | over an authentic trail a clock anomaly outranks all evidence, evidence reasons need strict mode, and a required token is reported only when nothing else is wrong |
| AuditTheorems.EvidencePriority | src/audit/integrity.ts:457-497 | strict mode, authentic and chronological trail: the reason is downgraded, mismatch, missing, token required or none, in this order, by what the events of the trail are |
| AuditTheorems.StrictReason | src/audit/timestamp-verification.ts:150-287 | **main**: the reason of a strict verification of an authentic, chronological trail, by the fields of its events alone: which names ask for evidence, which statuses are evidence, and what makes a TSA payload downgraded, mismatched or a token |
| AuditTheorems.HeadPinsHistory | src/audit/integrity.ts:190-354 | **main**: two trails that verify, in any modes, and end in one chain hash hold the same events in the same order |
| AuditTheorems.DroppedKeysAreUnpinned | src/audit/integrity.ts:305-318 | records that differ in dropped keys only have the same head and verdict |
| AuditTheorems.DroppedKeyVerifies | src/audit/integrity.ts:305-318 | concretely: a one-event trail verifies, strictly, both without and with a dropped key |
| AuditAppend.ParseAuditTrail | src/adapters/persistence-audit.ts:217-247 | the line loop parses every non-blank line to an event or fails at the first that is none |
| AuditAppend.TrimMeans | src/adapters/persistence-audit.ts:220-222 | trimming a line takes the blanks off both ends and nothing else |
| AuditAppend.GetLastChainHash | src/audit/integrity.ts:506-531 | the backward loop returns the chain hash of the newest record with hash fields, or the genesis value |
| AuditAppend.AppendedLineParses | src/adapters/persistence-audit.ts:196-247 | **main**: appending a record and a newline adds exactly that event to the parse if and only if the trail ended in an open line; otherwise the trail becomes unreadable |
| AuditAppend.UnterminatedTrail | src/adapters/persistence-audit.ts:196-247 | concretely: one record without a newline parses, and appending any record makes it unreadable |
| AuditAppend.StampKeepsVerification | src/adapters/persistence-audit.ts:183-214 | **main**: the stamped record always links; the longer trail verifies again exactly when the session is the trail's, the clock did not go back and the content did not occur after it was recorded |
| AuditAppend.DigestIgnoresPosition | src/audit/canonical-digest.ts:38-68 | evidence and positional stamps never change the content digest |
| AuditAppend.FinalizedIsStamped | src/audit/event-core.ts:157-193 | a finalized event verifies at no position; re-stamped by the authority it links wherever it lands, and the longer trail passes strict evidence exactly when the old one did, a critical event has evidence, and a TSA payload got the right digest, is not degraded and holds no token |
| AuditAppend.PlanExtends | src/adapters/persistence-audit.ts:148-215 | a planned append makes a good trail longer by exactly the stamped record under a new id and keeps it good; a redelivery is a stored record with the submitted content |
| AuditAppend.StoredIsRedelivered | src/adapters/persistence-audit.ts:158-181 | over a trail that holds a record, a call under its id plans that very record for the same content without unknown keys, and a refusal otherwise |
| AuditAppend.AcceptedIff | src/adapters/persistence-audit.ts:183-214 | **main**: over any good trail a submission is appended exactly when it is valid, without unknown keys, with an event id no stored event has and a session; the record is the next one, field by field; and what is refused how |
| AuditRuns.TrailStaysGood | src/adapters/persistence-audit.ts:148-215 | at every instant of every run of calls, write errors, deaths, power losses and writes of other files, the trail file and whatever a power loss may leave of it is parseable, linked and free of duplicate ids; it grows by stamped records alone and only a power loss takes records back, from its end |
| AuditRuns.EntryIsAppend | src/adapters/persistence-audit.ts:183-214 | a record becomes visible only by the rename of the call that stamped it |
| AuditRuns.DurableIff | src/adapters/persistence.ts:189-280 | a visible record is safe from every power loss exactly when the directory was synced by or after the call whose rename put it there |
| AuditRuns.AcknowledgementSurvivesIff | src/adapters/persistence-audit.ts:148-215 | **main**: an acknowledgement, of a new record or of a redelivery, survives every power loss that may follow exactly when the directory was synced by or after the call whose rename put the record there |
| AuditRuns.HasEntered | src/adapters/persistence-audit.ts:148-215 | every record that readers see was there from the start of the run, or has entered by such a call |
| AuditRuns.InheritedSurvivesIff | src/adapters/persistence-audit.ts:148-215 | an acknowledged record that readers have seen since the start survives exactly when it was safe at the start or the directory was synced since |
| AuditRuns.DurableForever | src/adapters/persistence-audit.ts:148-215 | a record no power loss can take back stays so, and visible, along every run |
| AuditRuns.AcknowledgedAndLost | src/adapters/persistence-audit.ts:158-172 | the failing run: an append whose directory sync fails, a redelivery that is told the record is stored, a power loss, and an empty trail |
| AuditRuns.ExactlyOnce | src/adapters/persistence-audit.ts:148-215 | **main**: an acknowledged event stays once as long as it was safe at every power loss; a later call under its id gets that very record for the same content, is refused for other content, and changes nothing either way |
| AuditRuns.NewEventIsAnswered | src/adapters/persistence-audit.ts:148-215 | **main**: over any good file, when the operating system refuses nothing, a new event is answered as the next record and becomes visible, and anything else leaves the trail as it is |
| AuditRuns.AppendAuditLineCore | src/adapters/persistence-audit.ts:148-215 | the call itself, step by step, is such a step |
| AuditRuns.AppendAuditLine | src/adapters/persistence-audit.ts:141-215 | **main**: from any disk, synced or not, and for every answer and crash point the call is a step of such runs; it goes unanswered only if it dies in the write, and a new event is answered and visible when the operating system refuses nothing |
| DurableWrite.FileSystem.RenameWithRetry | src/adapters/persistence.ts:131-147 | renames exactly when an attempt within the bound succeeds after transient failures only |
| DurableWrite.FileSystem.DurableAtomicWrite | src/adapters/persistence.ts:202-280 | **main**: for every failure and crash point, from any disk: the answers of the operating system determine whether the call is written, failed or crashed, whether readers see the old content or the new, and exactly what a power loss may leave, for the target and for every other file |
| DurableWrite.FailedButVisibleIff | src/adapters/persistence.ts:214-228 | a failure is reported over visible new content exactly when the directory sync is the operation that failed |
| DurableWrite.FailedButVisible | src/adapters/persistence.ts:214-228 | concretely: such answers, after which a power loss may leave the old content or the new |
| DurableWrite.SurvivalIff | src/adapters/persistence.ts:189-197 | what may survive under a name is exactly what some power loss leaves |
| DurableWrite.RenamedIsReplaced | src/adapters/persistence.ts:214-215 | after renaming a synced file over the target a power loss leaves the new content or anything it could have left before, and nothing else |
| DurableWrite.SyncedIsSettled | src/adapters/persistence.ts:257-280 | syncing the directory makes what readers see the only thing a power loss can leave, for every name whose file is synced |
| DurableWrite.UnsyncedRenameMayLeaveAnything | src/adapters/persistence.ts:162-187 | without the file sync a crash after the rename may leave any content |
| LockBody.CutBodyStaleIff | src/adapters/persistence-lock.ts:51-85 | **main**: exactly when a body cut off after k characters is judged stale: never up to the equals sign, then by the pid whose digits reached the file |
| LockBody.AllDigitsShow | src/adapters/persistence-lock.ts:51-85 | which is the writer's own once they are all there |
| LockBody.StaleAnswers | src/adapters/persistence-lock.ts:66-85 | what counts as stale, for any body: a lockfile that is gone, or one whose first line starting with `pid=` and a digit names, with all its digits, a dead process; never one that cannot be read |
| LockBody.CutPidJudgedByAnother | src/adapters/persistence-lock.ts:78-85 | a body of pid 12 cut after one digit is judged by pid 1 |
| LockBody.ReleaseDeletesIffOwn | src/adapters/persistence-lock.ts:87-97 | on a complete body release deletes the file exactly when the token is its own |
| LockProtocol.MutualExclusion | src/adapters/persistence-lock.ts:123-184 | **main**: in every run of any number of processes that may die and write their bodies piece by piece, with the takeover re-check and unlink as one step and no body torn inside its pid, at most one live agent has the lock |
| LockProtocol.OnlyOwnerRemoves | src/adapters/persistence-lock.ts:87-184 | in such a run a live owner's file changes only by its own write or its own release |
| LockProtocol.ExclusionIff | src/adapters/persistence-lock.ts:153-177 | **main**: without these assumptions, from a state in which live owners have their files: at most one live agent has the lock on all runs if and only if on no run a takeover unlink hits a live owner's file |
| LockProtocol.FreshExclusionIff | src/adapters/persistence-lock.ts:123-184 | **main**: which fresh starts are safe, by the pids alone: at most one live agent has the lock on all runs if and only if there are no three live agents of which one is of another process than the other two, and no two of which one's pid has a leading part that is neither's pid |
| LockProtocol.UnlinkBreaksExclusionIff | src/adapters/persistence-lock.ts:153-177 | **main**: an agent about to unlink can get to have the lock beside another live agent, by its own next calls, exactly when its unlink hits a live owner's file |
| LockProtocol.HarmlessKeeps | src/adapters/persistence-lock.ts:153-177 | along a run without such an unlink every live owner keeps its file and owns alone |
| LockProtocol.RemovalSafeIff | src/adapters/persistence-lock.ts:153-177 | a single step keeps the invariant exactly when it is no such unlink |
| LockProtocol.TakeoverRace | src/adapters/persistence-lock.ts:153-177 | for any three such agents, a run in which two live agents hold the lock |
| LockProtocol.TornBodyRace | src/adapters/persistence-lock.ts:78-85 | for any two such agents, a run in which an agent reads a live creator's body cut inside its pid, removes exactly what it confirmed, and has the lock beside that creator |
| LockProtocol.TwelveIsMistakable | src/adapters/persistence-lock.ts:78-85 | such two agents: one of pid 12, whose body may show pid 1, and any other not of pid 1 |
| LockProtocol.StaleLockIsTakenOver | src/adapters/persistence-lock.ts:134-178 | a complete body of a dead process is taken over by a live agent in seven calls of its own |
| LockProtocol.HalfWrittenLockIsFinal | src/adapters/persistence-lock.ts:64-85 | a file whose creator died or failed before its body shows a pid stays, and blocks every live agent, in every undisturbed continuation |
| LockProtocol.CreatorMayDie | src/adapters/persistence-lock.ts:127-131 | such a death is two events away from any start |
| LockProtocol.WriteMayFail | src/adapters/persistence-lock.ts:127-131 | so is the failure of the creator's write, which leaves the creator alive |
| LockProtocol.TriesAlone | src/adapters/persistence-lock.ts:123-184 | what an agent's calls do while nobody else acts: it has a free lock after two, waits at a live body without changing anything and tries again, and has a stale one after seven |
| LockProtocol.ChangedIsLeft | src/adapters/persistence-lock.ts:134-170 | a body that changed or went since it was read is not removed; the agent waits or tries again |
| LockProtocol.ReleaseRemovesOwn | src/adapters/persistence-lock.ts:87-97 | **main**: the three calls of a release remove the lockfile exactly when it is the agent's own whole body, and change nothing else |
| LockProtocol.Handover | src/adapters/persistence-lock.ts:87-184 | **main**: after a release another live agent, trying or waiting, has the lock by its own next two or three calls |
| LockProtocol.LateWriteIsLost | src/adapters/persistence-lock.ts:126-131 | a body written after its file was taken away goes nowhere |
| LockProtocol.WhoMayStop | src/adapters/persistence-lock.ts:126-200 | only a creator fails, only a waiter gives up, and neither touches the lockfile |
| ApprovalGuard.ScanDecisionReceipts | src/adapters/evidence-approval-write-guard.ts:81-106 | the loop over both outboxes counts distinct evidence-gate receipts once, and reports other-gate receipts and conflicting identities exactly |
| ApprovalGuard.DecisionReceiptGate | src/adapters/evidence-approval-write-guard.ts:108-123 | the gate a decision's receipts prove |
| ApprovalGuard.GateMeansOneReceipt | src/adapters/evidence-approval-write-guard.ts:81-123 | **main**: the evidence gate is proved exactly when both outboxes together hold one receipt of the decision, at that gate, with no conflicting identity |
| ApprovalGuard.StateFile.AssertBoundary | src/adapters/evidence-approval-write-guard.ts:194-240 | the boundary's refusals in order, and the admission it consumes |
| ApprovalGuard.StateFile.WriteStateAlreadyLocked | src/adapters/persistence.ts:443-489 | a refused write changes neither file nor admissions; an allowed one consumes its admission before the file changes or the write fails |
| ApprovalAnswers.EntryAnswers | src/adapters/evidence-approval-write-guard.ts:128-240 | **main**: what the guard answers to an entry into EXPORT_READY, in order, by the fields alone: predecessor, transition, human gates without a decision in time, a decision in time without its one receipt, admission; a decision before the evidence it is about asks for no receipt |
| ApprovalAnswers.CurrentIff | src/state/evidence-gate-decision.ts:33-42 | the current decision is the recorded one exactly when it was not taken before the review, else the implementation, and both instants parse |
| ApprovalAnswers.GateAnswers | src/adapters/evidence-approval-write-guard.ts:34-123 | what the receipts in both outboxes prove, by their fields |
| ApprovalAnswers.WriteAcceptedIff | src/adapters/persistence.ts:440-500 | **main**: exactly which state writes are accepted, over every document that may be in place |
| ApprovalRuns.EntryIsAuthorized | src/adapters/evidence-approval-write-guard.ts:194-240 | every accepted entry comes from EVIDENCE_REVIEW with the exact APPROVE transition, one receipt of the current decision, an unchanged source basis and an unused admission for exactly this state |
| ApprovalRuns.BasisConstantWhileApproved | src/adapters/evidence-approval-write-guard.ts:149-157 | from an entry through the write that leaves EXPORT_READY the approval basis does not change |
| ApprovalRuns.AdmissionsAreSingleUse | src/audit/proofgraph/evidence-approval-admission.ts:176-254 | two entries of one run are authorized by different admissions |
| ApprovalRuns.ApprovedIsAuthorized | src/adapters/evidence-approval-write-guard.ts:194-240 | **main**: in any run from an unapproved file every approved file goes back to one authorized entry, has been approved ever since, and has the basis that was admitted |
| ApprovalRuns.UnreadableFileIsKept | src/adapters/persistence.ts:305-317 | a file that is approved or has no phase but cannot be read is never overwritten |
| ApprovalRuns.UnreadableFileStays | src/adapters/persistence.ts:305-317 | along any run such a file stays as it is |
| ApprovalCrashes.SurvivorsAreAuthorized | src/adapters/evidence-approval-write-guard.ts:194-240 | **main**: in every run with power losses, every state file that is visible or may come back, if approved, carries the basis that an earlier authorized entry admitted |
| ApprovalCrashes.WriteIsAttempt | src/adapters/persistence.ts:477-484 | a durable state write is an attempt of the guard on the visible file, and leaves a power loss nothing but the visible file and what it could have left before |
| ApprovalCrashes.OneEntryEach | src/audit/proofgraph/evidence-approval-admission.ts:176-254 | through any power losses one admission authorizes one entry |
| Rollback.Installation.RollbackArtifacts | src/cli/install-helpers-rollback.ts:117-140 | the loop undoes all entries by descending sequence, collecting operations and errors |
| Rollback.DescendingSorts | src/cli/install-helpers-rollback.ts:123 | sorting by descending sequence gives the same entries, newest first |
| Rollback.Installation.RestoreFileFromSnapshot | src/cli/install-helpers-rollback.ts:142-179 | restoring one file: type checks, temporary sibling, rename, and what remains when a step fails |
| Rollback.Installation.RemoveNewlyCreatedEntry | src/cli/install-helpers-rollback.ts:181-237 | removing one created path: nothing for an absent one, a conflict for a changed type or a directory that is not empty |
| Rollback.UnjournaledUntouched | src/cli/install-helpers-rollback.ts:104-140 | whatever the tree has become and whatever fails, no path changes that is neither journaled nor a temporary name of a journaled file |
| Rollback.UndoKeepsWellFormed | src/cli/install-helpers-rollback.ts:142-237 | undoing never leaves an entry without its directory |
| RollbackTheorems.RestoreAnswers | src/cli/install-helpers-rollback.ts:142-179 | **main**: restoring one file, whatever fails: when it succeeds, which failure is reported otherwise, and what is left at the temporary name |
| RollbackTheorems.RemoveAnswers | src/cli/install-helpers-rollback.ts:181-237 | **main**: removing one created path, whatever fails: when it succeeds, and which failure is reported otherwise |
| RollbackTheorems.LstatMeans | src/cli/install-helpers-rollback.ts:147-165 | a path cannot be looked up exactly when something above it is no directory |
| RollbackTheorems.RollbackIsExact | src/cli/install-helpers-rollback.ts:104-140 | **main**: restored files are files with their recorded content, created paths are gone unless they hold foreign content, nothing else changed, the errors are exactly one conflict per such directory, and the operations reported are the files restored and the paths removed |
| InstallJournal.MutationJournal.Record | src/cli/install-transaction.ts:251-255 | recording appends the entry under the next sequence number |
| InstallJournal.MutationJournal.Deduplicated | src/cli/install-transaction.ts:257-270 | the first entry of each path, newest first, or an error exactly when a path was recorded with two kinds |
| InstallJournal.RunKeeps | src/cli/install-transaction.ts:247-297 | along any installation run with foreign writers, the journal's first entries describe the tree before the installation |
| InstallJournal.RollbackRestoresTheStart | src/cli/install-helpers-rollback.ts:117-237 | **main**: after any installation run in which every change of the installer was recorded, kind and content of every path are as before the installation, except foreign paths, which stay, and new directories that hold them, which stay and are exactly the errors |
| InstallJournal.RollbackAlone | src/cli/install-helpers-rollback.ts:117-140 | **main**: without foreign changes, and when every change of the installer was recorded, the whole tree is restored and no error is reported |
| InstallFailure.RollbackAfterFailure | src/cli/install-steps.ts:423-431 | **main**: when the last installer call fails after changing its path and before its record, the rollback does as after a run without it if the path was recorded before, and otherwise leaves the path as the call left it |
| InstallFailure.RollbackAloneIff | src/cli/install-command.ts:355-380 | **main**: then the whole tree is restored without errors if and only if that path was recorded before or is as it was at the start; otherwise exactly that path and the new directories above it are not restored, and those directories are the errors |
| InstallFailure.TruncatedFileIsLost | src/cli/install-steps.ts:430-431 | concretely: a write that fails after truncating an existing file leaves it empty |
| InstallFailure.NewDirectoryIsReported | src/cli/install-steps.ts:429-431 | concretely: a write that fails in a new directory makes the rollback report foreign content, and there is none |
| GitHeader.ReadQuoted | src/adapters/repository-change.ts:115-126 | the character loop reads a quoted path with its two escapes |
| GitHeader.ReadGitPath | src/adapters/repository-change.ts:110-131 | the token reader, its position being where the rest of the text starts |
| GitHeader.ParseDiffHeader | src/adapters/repository-change.ts:97-108 | the header parser computes the characterised header reader |
| GitHeader.HeaderIff | src/adapters/repository-change.ts:97-131 | **main**: a header is read as two paths exactly when it spells them, quoted or plain, with the blanks the reader tolerates |
| RepositoryChange.SectionsOfConcat | src/adapters/repository-change.ts:41-60 | sections put together are cut where they meet and nowhere else |
| RepositoryChange.ParseCanonicalRepositoryChanges | src/adapters/repository-change.ts:41-60 | the section loop accepts exactly the patches whose every section is readable, in order |
| RepositoryChange.ParseChange | src/adapters/repository-change.ts:285-299 | one section's change from its header, preamble and body |
| RepositoryChange.AcceptedIff | src/adapters/repository-change.ts:149-321 | **main**: a section is accepted exactly when its header spells two repository paths and its lifecycle lines are those of one kind of change, which it then is |
| PatchPrinting.WrittenSectionIsRead | src/adapters/repository-change.ts:124-321 | **main**: a section written line by line, with any notes among its lifecycle lines and any body, is read as the change those lines say and as no other; its paths must be name paths, and it is binary when the body says so |
| PatchPrinting.NamePathIff | src/adapters/repository-change.ts:314-321 | repository paths are lists of names, none empty, a dot or two dots, joined by slashes |
| RepositoryChange.RepositoryChangePaths | src/adapters/repository-change.ts:62-69 | the paths of all changes |
| RepositoryChange.SelectionMeans | src/adapters/repository-change.ts:72-91 | the selection holds exactly the changes that touch a requested path |
| PatchPrinting.SelectionIsPointwise | src/adapters/repository-change.ts:86-92 | selection goes change by change in order: each is kept whole or left out by its own paths |
| PatchPrinting.FilterAnswers | src/adapters/repository-change.ts:72-93 | a request is refused exactly when it is empty or names a path that no change has |
| RepositoryChange.ProjectionIsLossless | src/adapters/repository-change.ts:93-95 | **main**: projecting an accepted parse gives the patch text back |
| RepositoryChange.FilteredPatchParsesToItself | src/adapters/repository-change.ts:72-95 | **main**: projecting any accepted subset and parsing again gives exactly that subset, and it covers every requested path |
| Porcelain.ParsePorcelainZ | src/adapters/git-changes.ts:84-109 | the index loop reads fields as specified, skipping the old path of a rename or copy |
| Porcelain.ParsingInvertsPrinting | src/adapters/git-changes.ts:84-109 | **main**: rendering any list of status records and parsing the result gives the normalised paths in order, even when an old path looks like a record |
| Porcelain.OddFieldsAreRead | src/adapters/git-changes.ts:86-106 | a field of fewer than four characters names nothing; a move at the end or before an empty field names one path |
| Porcelain.NormalizeIdempotentIff | src/shared/repo-path.ts:2-4 | normalising twice is normalising once exactly when the path does not start with two dot segments |
| Porcelain.NormalizeTwice | src/shared/repo-path.ts:2-4 | concretely: two leading dot segments take two passes |
| Porcelain.NormalizeAnswers | src/shared/repo-path.ts:2-4 | normalising makes every backslash a slash, drops one leading dot segment and changes nothing else |
| Bits.MaskTest | src/adapters/ip-validation.ts:48-50 | masking with the leading ones and comparing is membership in an interval, for every width and prefix |
| Ipv4.ParseIPv4 | src/adapters/ip-validation.ts:31-43 | the shift-and-or loop computes the address of four octets, or nothing |
| Ipv4.PrintedIPv4IsRead | src/adapters/ip-validation.ts:31-43 | every 32-bit address is read back from its dotted form |
| Ipv4.PrivateIffInBlock | src/adapters/ip-validation.ts:10-50 | **main**: the mask test over the listed prefixes is membership in the named blocks as numeric intervals |
| Ipv6Text.ParseHextets | src/adapters/ip-validation.ts:90-98 | the loop gives the values of all segments or nothing |
| Ipv6Text.HextetAnswers | src/adapters/ip-validation.ts:90-112 | a hextet is one to four of the sixteen lower-case digits, with its positional value |
| Ipv6Text.ExpandIff | src/adapters/ip-validation.ts:100-114 | **main**: the expander accepts exactly the dot-free spellings of section 2.2 of RFC 4291 and returns their meaning |
| Ipv6Text.ExpandedInRange | src/adapters/ip-validation.ts:100-137 | its result is always eight hextets in range |
| Ipv6Text.ValidIff | src/adapters/ip-validation.ts:187-233 | the validator's four branches accept exactly the spellings within the hextet budget |
| Ipv6Text.IsIPv6AddressIff | src/adapters/ip-validation.ts:161-185 | **main**: the validator accepts exactly the spellings of eight hextets, or of six and a dotted tail, in either letter case |
| Ipv6Text.TwoReadersAgree | src/adapters/ip-validation.ts:100-233 | **main**: on text without a dot the two independent readers accept the same texts |
| Ipv6Private.EmbeddedOfValue | src/adapters/ip-validation.ts:66-131 | the embedded IPv4 address is a function of the address value, not of the spelling |
| Ipv6Private.PrivateIff | src/adapters/ip-validation.ts:52-88 | **main**: the private test exactly: the address lies in a private range, or its short first hextet merely looks private |
| Ipv6Private.ShortHextetLooksPrivate | src/adapters/ip-validation.ts:52-64 | concretely: fc::1, whose first hextet is 0xfc, is reported private and lies in no private range |
| Ipv6Private.PrivateRangesAreCovered | src/adapters/ip-validation.ts:52-88 | every dot-free spelling of an address in a private range is reported private |
| Ipv6Private.LoopbackIsPrivate | src/adapters/ip-validation.ts:60 | the values of `::` and `::1` lie in the private ranges, so they are covered too |
| ImprintBytes.ConstantTimeBytesEqual | src/audit/constant-time.ts:8-17 | the accumulating loop decides equality of padded bytes and 32-bit lengths |
| ImprintBytes.PaddedEqualIff | src/audit/constant-time.ts:8-17 | what it decides for all lengths: the longer array is the shorter one followed by a multiple of four gigabytes of zeros |
| ImprintBytes.PaddedEqualIsEqual | src/audit/constant-time.ts:8-17 | so it is equality unless the lengths are different and equal modulo 2^32 |
| ImprintBytes.EmptyEqualsZeros | src/audit/constant-time.ts:8-17 | concretely: the empty array and four gigabytes of zeros compare equal |
| ImprintBytes.CanonicalDigestToUint8Array | src/audit/timestamp-verification.ts:23-39 | non-empty hexadecimal text of even length gives its bytes; odd length and other text are told apart |
| ImprintBytes.HexDigestIff | src/audit/timestamp-verification.ts:23-39 | a text is accepted exactly when it is, in some letter case, what some bytes are printed as |
| ImprintBytes.PrintedIsRead | src/audit/timestamp-verification.ts:23-39 | printed bytes are read back |
| ImprintBytes.ImprintsEqualIff | src/audit/timestamp-verification.ts:23-39 | two digests denote the same bytes exactly when they are the same text up to letter case |
| Doubles.RoundEvenMeans | src/audit/ntp-check.ts:40-59 | a double operation rounds to the nearest, and of two equally near to the even |
| Doubles.DoubleNear | src/audit/ntp-check.ts:40-59 | a double operation on a magnitude below 2^(53-k) errs by at most half of 2^-k |
| Doubles.DoubleOnGrid | src/audit/ntp-check.ts:40-59 | a double operation keeps every multiple of 2^-k a multiple, and keeps its value if it has at most 53 bits |
| NtpClock.WriteNtpTimestamp | src/audit/ntp-check.ts:40-46 | writes the eight bytes exactly when seconds and fraction both fit a word, and leaves the rest of the buffer alone |
| NtpClock.FractionFitsIff | src/audit/ntp-check.ts:43-45 | the rounded fraction overflows its word exactly when the computed part of a second is in the last 2^-33 of it |
| NtpClock.MillisecondsFitIff | src/audit/ntp-check.ts:40-53 | whole milliseconds never overflow it, so a request can be built exactly for times of the first NTP era |
| NtpClock.BuildNtpPacket | src/audit/ntp-check.ts:48-53 | the request has 48 bytes: version and mode, zeros, and the send time |
| NtpClock.TimestampRoundTrip | src/audit/ntp-check.ts:40-59 | **main**: a millisecond time of the era, written and read in double precision, is exact to half of 2^-32 seconds (section 6 of RFC 5905) if and only if it is a multiple of an eighth of a second; the error is at most 2.25 * 2^-22 seconds, from 1970 on 1.5 * 2^-22, plus a fraction unit, and the time rounds back to itself |
| NtpClock.MillisecondIsInexact | src/audit/ntp-check.ts:40-59 | concretely: 1700000000001 ms is written with fraction 4294656 instead of 4294967 |
| NtpClock.TimeOnGrid | src/audit/ntp-check.ts:55-59 | every time read from a packet is a multiple of 2^-22 seconds |
| NtpClock.ReplyAcceptedIff | src/audit/ntp-check.ts:61-120 | a reply is accepted exactly for a synchronized server of version 3 or 4, server mode, stratum 1 to 15, that echoes the request and has a transmit time; its times are those read from its own two stamps |
| NtpClock.ReplyRefusals | src/audit/ntp-check.ts:61-120 | why a reply is refused, in order, by its header fields |
| NtpClock.EchoNamesTheRequest | src/audit/ntp-check.ts:98-109 | two requests have the same timestamp exactly when sent in the same millisecond, so no reply to another one is accepted |
| NtpClock.OffsetErrorIff | src/audit/ntp-check.ts:164-167 | in exact arithmetic the offset is wrong by half the difference of the two delays shown, and half the round trip bounds the error exactly when the two do not have opposite signs (section 8 of RFC 5905) |
| NtpClock.MeasurementBound | src/audit/ntp-check.ts:164-176 | **main**: in double precision, for non-negative delays and a clock within the era, the reported milliseconds are off by at most half the reported round trip plus 0.77 |
| NtpClock.WarningIsJustified | src/audit/ntp-check.ts:221-230 | a drift warning and its absence are right up to that slack |
| NtpClock.Query.OnConnect | src/audit/ntp-check.ts:185-196 | connecting records the send time, or fails the query outside the era |
| NtpClock.Query.OnMessage | src/audit/ntp-check.ts:151-179 | a message is ignored before the request is sent and after the query is settled, and settles it otherwise |
| NtpClock.FirstVerdictStands | src/audit/ntp-check.ts:122-203 | **main**: for every order of events a query's outcome is what the first settling event says |
| NtpClock.OpenIff | src/audit/ntp-check.ts:129-152 | a query is open exactly while no event has settled it |
| NtpClock.QueryAnswers | src/audit/ntp-check.ts:122-203 | the outcome of one query: a connection outside the era, a reply after and before the request, a timer, a socket error |
| NtpClock.CheckNtpClock | src/audit/ntp-check.ts:214-244 | the first server that can be measured decides; unreachable exactly when none can |
| ArchiveDigest.FramingIsInjective | src/shared/hashing.ts:77-85 | length-framed parts determine the list of parts |
| ArchiveDigest.DigestExistsIff | src/archive/content-digest.ts:83-95 | a digest exists exactly when every included file has one that is not empty; otherwise the first file without is named |
| ArchiveDigest.DigestPins | src/archive/content-digest.ts:83-108 | **main**: two manifests have one digest exactly when they agree on every covered field and on the multiset of file digests |
| ArchiveDigest.OrderDoesNotMatter | src/archive/content-digest.ts:83-108 | permuting the included files keeps the digest |
| ArchiveDigest.ContentsMayBeExchanged | src/archive/content-digest.ts:83-108 | exchanging the digests of two included files keeps it, too |
| ArchiveDigest.SortSorts | src/archive/content-digest.ts:84-95 | the sort orders the digests and keeps each with its multiplicity |

## Left out

- SHA-256, canonical JSON and schema libraries: replaced by free constructors and predicates over the fields the code reads.
- CMS, RFC 3161 tokens, certificates, HTTP and UDP traffic, DNS, and the `gh` and `git` subprocesses: foreign libraries and I/O.
- Audit completeness slots (src/audit/completeness.ts): they depend on topology and guard files that would only add table lookups.
- The proof-graph projection behind the approval basis: the basis is the policy, binding and evidence it projects, compared as values.
- The audit confirmation record and the delegation key of the activation store: single writes and reads.
- Windows error codes: a directory sync is supported, unsupported or failing; a rename is done, transient or failing.
- Poll delays and deadlines of lock acquisition: any poll may be the last before the agent gives up.
- Symbolic links above a path in the installer's tree: only links at journaled paths are modelled.
- The staged dependency installation of the installer (src/cli/install-transaction.ts:40-243): subprocess calls and renames of a staging directory.
- CLI arguments, doctor and inspect output, reports, logging, release and documentation scripts: plumbing.
- The callers that wrap an append in the session or audit lock (src/adapters/persistence-audit.ts:64-109, 257-278): an append is modelled as holding its lock.
- RootListing.ListActiveGovernanceRoots: requires that cursors come from a finite set, because the loop does not end on a store that hands out new cursors for ever.
- RootListing.ListingIsExact: the store stands still during the listing; RootListing.ListedWasActive has no such assumption.
- Doubles.Double: magnitudes from 2^53 on, infinities and NaN are not modelled; no clock value reaches them.
- NtpClock.Query.OnMessage: sockets, timers and clean-up after settling are not modelled.
- RepositoryChange.RepositoryChangePaths: returns the set of paths; the source sorts it.
- Ipv6Private.PrivateRangesAreCovered: stated for text without a dot; a dotted tail after other hextets is not expanded by the code.
- LockProtocol.MutualExclusion: assumes the stated intents that re-check and unlink act as one step and that a half-written body counts as live; LockProtocol.ExclusionIff has no such assumption.
- GovernanceStore.ActivationStore.Start: the session lock, the fresh activation id and the number of writes before a crash are parameters.
- InstallJournal.RollbackRestoresTheStart: temporary names are new and no call of the rollback fails; Rollback.UnjournaledUntouched covers such failures, InstallFailure a failing call of the installer.
- Permission bits: a tree holds kinds and contents only; the rollback writes a new file, so a restored file loses its mode.
