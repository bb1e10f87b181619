/**
 * Runs of the append authority on a file system that may lose power between any two
 * calls (src/adapters/persistence-audit.ts, src/adapters/persistence.ts): which
 * records a power loss may take back, and what exactly-once delivery amounts to.
 */
module AuditRuns {
  import opened Results
  import opened AuditEvents
  import opened AuditVerify
  import opened AuditAppend
  import opened DurableWrite

  function TextOf(seen: Option<Text>): Text {
    if seen.Some? then seen.value else []
  }

  /** The records of a trail file as a reader sees it. */
  function TrailOf(seen: Option<Text>): seq<Event> {
    match ParseTrail(TextOf(seen))
    case Ok(events) => events
    case Err(_) => []
  }

  function Visible(d: Disk<Text>, path: string): seq<Event> {
    TrailOf(View(d, path))
  }

  /** No power loss can take the record back. */
  ghost predicate Durable(d: Disk<Text>, path: string, e: Event) {
    forall seen :: MaySurvive(d, path, seen) ==> e in TrailOf(seen)
  }

  /** Every file a power loss may leave is a good trail that the visible one extends. */
  ghost predicate GoodFile(d: Disk<Text>, path: string) {
    && Sane(d) && GoodTrail(TextOf(View(d, path)))
    && forall seen :: MaySurvive(d, path, seen) ==> GoodTrail(TextOf(seen)) && TrailOf(seen) <= Visible(d, path)
  }

  // ---- One step ----

  datatype Reply = Answered(event: Event) | Rejected(error: AuditError) | WriteError | NoReply

  /** A call with what it was told, a power loss, or a durable write of another file in the directory. */
  datatype Step =
    | Call(submission: Submission, now: Timestamp, answers: Answers, reply: Reply)
    | PowerLoss
    | Elsewhere(answers: Answers)

  /** What a caller is told of a replacement that ended; a caller that died is told nothing. */
  ghost predicate Tells(answers: Answers, e: Event, reply: Reply) {
    || reply == NoReply
    || (Done(answers, 5) && reply == Answered(e))
    || (!Done(answers, 5) && reply == WriteError)
  }

  /** The call on the trail file at `path`: answered from what is visible, or written durably. */
  ghost predicate IsCall(d: Disk<Text>, after: Disk<Text>, path: string, step: Step)
    requires step.Call?
  {
    match PlanAppend(TextOf(View(d, path)), step.submission, step.now)
    case Err(error) => Kept(d, after, path) && (step.reply == Rejected(error) || step.reply == NoReply)
    case Ok(Redelivered(stored)) => Kept(d, after, path) && (step.reply == Answered(stored) || step.reply == NoReply)
    case Ok(Append(e, text)) =>
      && Tells(step.answers, e, step.reply)
      && (!Done(step.answers, 4) ==> Kept(d, after, path))
      && (Done(step.answers, 4) && !DirectorySynced(step.answers) ==> Replaced(d, after, path, text))
      && (DirectorySynced(step.answers) ==> SettledAs(after, path, Some(text)))
  }

  ghost predicate IsStep(d: Disk<Text>, after: Disk<Text>, path: string, step: Step) {
    && Sane(after)
    && match step
       case Call(_, _, _, _) => IsCall(d, after, path, step)
       case PowerLoss => CrashesTo(d, after)
       case Elsewhere(answers) => OtherKept(d, after, path, answers)
  }

  /** The directory is synced with this step, or everything visible has come from the disk. */
  ghost predicate Settles(d: Disk<Text>, path: string, step: Step) {
    match step
    case Call(submission, now, answers, _) =>
      var plan := PlanAppend(TextOf(View(d, path)), submission, now);
      plan.Ok? && plan.value.Append? && DirectorySynced(answers)
    case PowerLoss => true
    case Elsewhere(answers) => DirectorySynced(answers)
  }

  /** What a reader sees under the path has been synced, or a power loss could leave anything there. */
  lemma GoodIsOnDisk(d: Disk<Text>, path: string)
    requires GoodFile(d, path)
    ensures OnDisk(d, path)
  {
    UnsyncedMayBeAnything(d, path, [Junk]);
    JunkIsNoTrail();
  }

  lemma JunkIsNoTrail()
    ensures !GoodTrail([Junk])
  {
    var text: Text := [Junk];
    assert text[1..] == [];
    assert Lines(text) == [[Junk] + []];
    assert Trim([Junk]) == [Junk];
  }

  lemma VisibleMaySurvive(d: Disk<Text>, path: string)
    requires Sane(d)
    ensures MaySurvive(d, path, View(d, path))
    ensures forall e :: Durable(d, path, e) ==> e in Visible(d, path)
  {
    hide TrailOf;
    assert d.entry(path) in d.candidates(path);
    if d.entry(path).Some? {
      assert Some(d.entry(path).value) in d.candidates(path);
    }
  }

  lemma KeptStaysGood(d: Disk<Text>, after: Disk<Text>, path: string)
    requires GoodFile(d, path) && Sane(after) && Kept(d, after, path)
    ensures GoodFile(after, path) && Visible(after, path) == Visible(d, path)
    ensures forall e :: Durable(after, path, e) <==> Durable(d, path, e)
  {
    hide GoodTrail, MaySurvive, TrailOf, Sane, TextOf;
  }

  lemma ReplacedStaysGood(d: Disk<Text>, after: Disk<Text>, path: string, text: Text)
    requires GoodFile(d, path) && Sane(after) && Replaced(d, after, path, text)
    requires GoodTrail(text) && Visible(d, path) <= TrailOf(Some(text))
    ensures GoodFile(after, path) && Visible(after, path) == TrailOf(Some(text))
    ensures forall e :: Durable(after, path, e) <==> Durable(d, path, e)
  {
    VisibleMaySurvive(d, path);
    hide GoodTrail, MaySurvive, TrailOf, Sane;
    assert TextOf(Some(text)) == text;
    forall e ensures Durable(after, path, e) <==> Durable(d, path, e) {
      if Durable(d, path, e) {
        forall seen | MaySurvive(after, path, seen) ensures e in TrailOf(seen) {
        }
      } else {
        var seen :| MaySurvive(d, path, seen) && e !in TrailOf(seen);
        assert MaySurvive(after, path, seen);
      }
    }
  }

  lemma SettledIsGood(after: Disk<Text>, path: string, seen: Option<Text>)
    requires Sane(after) && SettledAs(after, path, seen) && GoodTrail(TextOf(seen))
    ensures GoodFile(after, path) && Visible(after, path) == TrailOf(seen)
    ensures forall e :: Durable(after, path, e) <==> e in Visible(after, path)
  {
    hide GoodTrail, MaySurvive, TrailOf, Sane, TextOf;
  }

  /** What one step does to the visible records and to those that are safe. */
  ghost predicate Moves(d: Disk<Text>, after: Disk<Text>, path: string, step: Step) {
    && GoodFile(after, path)
    && (step.PowerLoss? ==> Visible(after, path) <= Visible(d, path))
    && (step.Elsewhere? ==> Visible(after, path) == Visible(d, path))
    && (step.Call? ==>
          || Visible(after, path) == Visible(d, path)
          || (Done(step.answers, 4) && Visible(after, path) == Visible(d, path) + [Stamp(Visible(d, path), step.submission, step.now)]))
    && (forall e :: Durable(after, path, e) <==>
          Durable(d, path, e) || (Settles(d, path, step) && e in Visible(after, path)))
  }

  /** Every step keeps the file good; only a call makes the trail longer, and only a power loss makes it shorter. */
  lemma StepMoves(d: Disk<Text>, after: Disk<Text>, path: string, step: Step)
    requires GoodFile(d, path) && IsStep(d, after, path, step)
    ensures Moves(d, after, path, step)
  {
    match step {
      case Call(_, _, _, _) => CallMoves(d, after, path, step);
      case PowerLoss => LossMoves(d, after, path);
      case Elsewhere(_) => ElsewhereMoves(d, after, path, step);
    }
  }

  lemma LossMoves(d: Disk<Text>, after: Disk<Text>, path: string)
    requires GoodFile(d, path) && IsStep(d, after, path, PowerLoss)
    ensures Moves(d, after, path, PowerLoss)
  {
    CrashSettles(d, after, path);
    hide GoodTrail, MaySurvive, TrailOf, Sane, TextOf, SettledAs, CrashesTo;
    SettledIsGood(after, path, View(after, path));
  }

  lemma ElsewhereMoves(d: Disk<Text>, after: Disk<Text>, path: string, step: Step)
    requires step.Elsewhere? && GoodFile(d, path) && IsStep(d, after, path, step)
    ensures Moves(d, after, path, step)
  {
    VisibleMaySurvive(d, path);
    GoodIsOnDisk(d, path);
    hide GoodTrail, MaySurvive, TrailOf, Sane, TextOf, SettledAs, OnDisk, Durable, DirectorySynced, Kept;
    if DirectorySynced(step.answers) {
      SettledIsGood(after, path, View(d, path));
    } else {
      KeptStaysGood(d, after, path);
    }
  }

  lemma CallMoves(d: Disk<Text>, after: Disk<Text>, path: string, step: Step)
    requires step.Call? && GoodFile(d, path) && IsStep(d, after, path, step)
    ensures Moves(d, after, path, step)
  {
    var plan := PlanAppend(TextOf(View(d, path)), step.submission, step.now);
    VisibleMaySurvive(d, path);
    VisibleParses(d, path);
    assert DirectorySynced(step.answers) ==> Done(step.answers, 4);
    hide GoodTrail, MaySurvive, TrailOf, Sane, TextOf, SettledAs, Durable, DirectorySynced, Kept, Replaced, PlanAppend, Done, Stamp;
    if plan.Ok? {
      PlanExtends(TextOf(View(d, path)), step.submission, step.now);
    }
    if plan.Ok? && plan.value.Append? && Done(step.answers, 4) {
      var text := plan.value.text;
      GoodText(text);
      if DirectorySynced(step.answers) {
        SettledIsGood(after, path, Some(text));
      } else {
        ReplacedStaysGood(d, after, path, text);
      }
    } else {
      KeptStaysGood(d, after, path);
    }
  }

  lemma VisibleParses(d: Disk<Text>, path: string)
    requires GoodFile(d, path)
    ensures GoodTrail(TextOf(View(d, path)))
    ensures ParseTrail(TextOf(View(d, path))) == Ok(Visible(d, path))
  {
  }

  lemma GoodText(text: Text)
    requires GoodTrail(text)
    ensures TextOf(Some(text)) == text && ParseTrail(text) == Ok(TrailOf(Some(text)))
  {
  }

  // ---- Runs ----

  /** The disk before the first step and after every step. */
  datatype Run = Run(disks: seq<Disk<Text>>, steps: seq<Step>)

  ghost predicate IsRun(run: Run, path: string) {
    && |run.disks| == |run.steps| + 1
    && GoodFile(run.disks[0], path)
    && forall m :: 0 <= m < |run.steps| ==> IsStep(run.disks[m], run.disks[m + 1], path, run.steps[m])
  }

  /** A run starts well on any disk with no trail file, and on a good trail that is settled. */
  lemma SettledStarts(d: Disk<Text>, path: string, seen: Option<Text>)
    requires Sane(d) && SettledAs(d, path, seen) && (seen.Some? ==> GoodTrail(seen.value))
    ensures GoodFile(d, path)
  {
    EmptyTrailIsGood();
    SettledIsGood(d, path, seen);
  }

  /**
   * At every instant of every run the file, and whatever a power loss may leave of it,
   * is parseable, linked and free of duplicate ids; it grows by stamped records alone
   * and only a power loss takes records back, from its end.
   */
  lemma {:induction false} TrailStaysGood(run: Run, path: string, m: nat)
    requires IsRun(run, path) && m < |run.disks|
    ensures GoodFile(run.disks[m], path)
    ensures m < |run.steps| ==> Moves(run.disks[m], run.disks[m + 1], path, run.steps[m])
  {
    hide GoodFile, Moves, IsStep;
    if m > 0 {
      TrailStaysGood(run, path, m - 1);
      assert GoodFile(run.disks[m], path) by { MovesIsGood(run.disks[m - 1], run.disks[m], path, run.steps[m - 1]); }
    }
    if m < |run.steps| {
      StepMoves(run.disks[m], run.disks[m + 1], path, run.steps[m]);
    }
  }

  lemma MovesIsGood(d: Disk<Text>, after: Disk<Text>, path: string, step: Step)
    requires Moves(d, after, path, step)
    ensures GoodFile(after, path)
  {
  }

  /** Step k put the record where readers see it, and it stayed there up to disk j. */
  ghost predicate Entered(run: Run, path: string, k: nat, j: nat, e: Event) {
    && k < j < |run.disks| == |run.steps| + 1
    && e !in Visible(run.disks[k], path)
    && forall m :: k < m <= j ==> e in Visible(run.disks[m], path)
  }

  /** The directory was synced at step k or later, before disk j. */
  ghost predicate SyncedSince(run: Run, path: string, k: nat, j: nat) {
    exists m :: k <= m < j && m < |run.steps| && m < |run.disks| && Settles(run.disks[m], path, run.steps[m])
  }

  /** A record enters by the rename of the call that stamped it. */
  lemma EntryIsAppend(run: Run, path: string, k: nat, j: nat, e: Event)
    requires IsRun(run, path) && Entered(run, path, k, j, e)
    ensures var step := run.steps[k];
      && step.Call? && Done(step.answers, 4)
      && e == Stamp(Visible(run.disks[k], path), step.submission, step.now)
  {
    hide GoodFile, Visible, Stamp, Done, IsStep, Durable, Settles;
    TrailStaysGood(run, path, k);
    assert e in Visible(run.disks[k + 1], path);
  }

  /** Readers have seen the record since the start of the run. */
  ghost predicate Inherited(run: Run, path: string, j: nat, e: Event) {
    && j < |run.disks| == |run.steps| + 1
    && forall m :: 0 <= m <= j ==> e in Visible(run.disks[m], path)
  }

  /** Every record that readers see was there from the start, or has entered. */
  lemma {:induction false} HasEntered(run: Run, path: string, j: nat, e: Event)
    requires IsRun(run, path) && j < |run.disks| && e in Visible(run.disks[j], path)
    ensures Inherited(run, path, j, e) || exists k :: Entered(run, path, k, j, e)
  {
    hide IsRun, Visible;
    assert |run.disks| == |run.steps| + 1 by { RunLength(run, path); }
    if j > 0 {
      if e !in Visible(run.disks[j - 1], path) {
        assert Entered(run, path, j - 1, j, e);
      } else {
        var last := j - 1;
        HasEntered(run, path, last, e);
        if k :| Entered(run, path, k, last, e) {
          assert Entered(run, path, k, j, e);
        }
      }
    }
  }

  lemma RunLength(run: Run, path: string)
    requires IsRun(run, path)
    ensures |run.disks| == |run.steps| + 1
  {
  }

  /** A visible record is safe exactly when the directory was synced by or after the call whose rename put it there. */
  lemma {:induction false} DurableIff(run: Run, path: string, k: nat, j: nat, e: Event)
    requires IsRun(run, path) && Entered(run, path, k, j, e)
    ensures Durable(run.disks[j], path, e) <==> SyncedSince(run, path, k, j)
    decreases j
  {
    hide GoodFile, Visible, Stamp, Done, IsStep, Durable, Settles, SyncedSince;
    TrailStaysGood(run, path, j - 1);
    assert e in Visible(run.disks[j], path);
    SyncedSnoc(run, path, k, j);
    if j == k + 1 {
      TrailStaysGood(run, path, k);
      assert !Durable(run.disks[k], path, e) by {
        GoodIsSane(run.disks[k], path);
        VisibleMaySurvive(run.disks[k], path);
      }
    } else {
      DurableIff(run, path, k, j - 1, e);
    }
  }

  /** A record seen since the start is safe exactly when it was then, or the directory was synced since. */
  lemma {:induction false} InheritedDurableIff(run: Run, path: string, j: nat, e: Event)
    requires IsRun(run, path) && Inherited(run, path, j, e)
    ensures Durable(run.disks[j], path, e) <==> Durable(run.disks[0], path, e) || SyncedSince(run, path, 0, j)
  {
    hide GoodFile, Visible, Stamp, Done, IsStep, Durable, Settles, SyncedSince;
    if j > 0 {
      TrailStaysGood(run, path, j - 1);
      assert e in Visible(run.disks[j], path);
      SyncedSnoc(run, path, 0, j);
      InheritedDurableIff(run, path, j - 1, e);
    } else {
      NothingSynced(run, path);
    }
  }

  lemma NothingSynced(run: Run, path: string)
    ensures !SyncedSince(run, path, 0, 0)
  {
  }

  lemma GoodIsSane(d: Disk<Text>, path: string)
    requires GoodFile(d, path)
    ensures Sane(d)
  {
  }

  lemma SyncedSnoc(run: Run, path: string, k: nat, j: nat)
    requires k < j <= |run.steps| < |run.disks|
    ensures SyncedSince(run, path, k, j) <==>
      SyncedSince(run, path, k, j - 1) || Settles(run.disks[j - 1], path, run.steps[j - 1])
    ensures !SyncedSince(run, path, k, k)
  {
    hide Settles;
  }

  // ---- Acknowledgements ----

  /** What a caller is told is in the trail is visible, with the content it submitted. */
  lemma AnsweredIsVisible(run: Run, path: string, i: nat)
    requires IsRun(run, path) && i < |run.steps| && run.steps[i].Call? && run.steps[i].reply.Answered?
    ensures var e := run.steps[i].reply.event;
      e in Visible(run.disks[i + 1], path) && e.sealed.body == run.steps[i].submission.body
  {
    var d, after, step := run.disks[i], run.disks[i + 1], run.steps[i];
    TrailStaysGood(run, path, i);
    VisibleParses(d, path);
    assert IsStep(d, after, path, step);
    assert Done(step.answers, 5) ==> Done(step.answers, 4);
    hide GoodTrail, MaySurvive, Sane, Durable, PlanAppend, Done, DirectorySynced, Stamp, GoodFile, ParseTrail, IsRun, Settled;
    PlanExtends(TextOf(View(d, path)), step.submission, step.now);
  }

  /**
   * An acknowledgement, of a new record or of a redelivery, survives every power loss
   * that may follow it exactly when the directory was synced by or after the call whose
   * rename put the record there.
   */
  lemma AcknowledgementSurvivesIff(run: Run, path: string, k: nat, i: nat)
    requires IsRun(run, path) && i < |run.steps| && run.steps[i].Call? && run.steps[i].reply.Answered?
    requires Entered(run, path, k, i + 1, run.steps[i].reply.event)
    ensures (forall after :: CrashesTo(run.disks[i + 1], after) ==> run.steps[i].reply.event in Visible(after, path)) <==>
      SyncedSince(run, path, k, i + 1)
  {
    DurableIff(run, path, k, i + 1, run.steps[i].reply.event);
    TrailStaysGood(run, path, i + 1);
    GoodIsSane(run.disks[i + 1], path);
    hide *;
    SafeMeans(run.disks[i + 1], path, run.steps[i].reply.event);
  }

  /** The same of an acknowledged record that readers have seen since the start of the run. */
  lemma InheritedSurvivesIff(run: Run, path: string, i: nat)
    requires IsRun(run, path) && i < |run.steps| && run.steps[i].Call? && run.steps[i].reply.Answered?
    requires Inherited(run, path, i + 1, run.steps[i].reply.event)
    ensures (forall after :: CrashesTo(run.disks[i + 1], after) ==> run.steps[i].reply.event in Visible(after, path)) <==>
      Durable(run.disks[0], path, run.steps[i].reply.event) || SyncedSince(run, path, 0, i + 1)
  {
    InheritedDurableIff(run, path, i + 1, run.steps[i].reply.event);
    TrailStaysGood(run, path, i + 1);
    GoodIsSane(run.disks[i + 1], path);
    hide *;
    SafeMeans(run.disks[i + 1], path, run.steps[i].reply.event);
  }

  /** A record is safe when every power loss leaves it visible. */
  lemma SafeMeans(d: Disk<Text>, path: string, e: Event)
    requires Sane(d)
    ensures Durable(d, path, e) <==> forall after :: CrashesTo(d, after) ==> e in Visible(after, path)
  {
    hide MaySurvive, Sane, TrailOf, CrashesTo, View;
    if Durable(d, path, e) {
      forall after | CrashesTo(d, after) ensures e in Visible(after, path) {
        SurvivalIff(d, path, View(after, path));
      }
    } else {
      var seen :| MaySurvive(d, path, seen) && e !in TrailOf(seen);
      SurvivalIff(d, path, seen);
    }
  }

  /** Once no power loss can take a record back, none ever can. */
  lemma {:induction false} DurableForever(run: Run, path: string, i: nat, j: nat, e: Event)
    requires IsRun(run, path) && i <= j < |run.disks| && Durable(run.disks[i], path, e)
    ensures Durable(run.disks[j], path, e) && e in Visible(run.disks[j], path)
    decreases j - i
  {
    hide GoodFile, Visible, Stamp, Done, IsStep, Durable, Settles;
    TrailStaysGood(run, path, j);
    if i < j {
      DurableForever(run, path, i, j - 1, e);
      TrailStaysGood(run, path, j - 1);
    }
    GoodIsSane(run.disks[j], path);
    VisibleMaySurvive(run.disks[j], path);
  }

  /** The record is safe before every power loss between two steps. */
  ghost predicate SafeAtLosses(run: Run, path: string, i: nat, j: nat, e: Event) {
    forall m :: i < m < j && m < |run.steps| && m < |run.disks| && run.steps[m].PowerLoss? ==> Durable(run.disks[m], path, e)
  }

  lemma {:induction false} StaysVisible(run: Run, path: string, i: nat, j: nat, e: Event)
    requires IsRun(run, path) && i < j <= |run.steps| && SafeAtLosses(run, path, i, j, e)
    requires e in Visible(run.disks[i + 1], path)
    ensures e in Visible(run.disks[j], path)
    decreases j - i
  {
    hide GoodFile, Visible, Stamp, Done, IsStep, Durable, Settles;
    if i + 1 < j {
      StaysVisible(run, path, i, j - 1, e);
      TrailStaysGood(run, path, j - 1);
      if run.steps[j - 1].PowerLoss? {
        DurableForever(run, path, j - 1, j, e);
      }
    }
  }

  /**
   * Exactly once. In every run of calls, write errors, deaths, power losses and writes of
   * other files, a record once acknowledged stays in the trail, once, as long as it was
   * safe at every power loss: a later call under its id gets that very record for the
   * same content, is refused for any other, and changes nothing.
   */
  lemma ExactlyOnce(run: Run, path: string, i: nat, j: nat)
    requires IsRun(run, path) && i < j < |run.steps| && run.steps[i].Call? && run.steps[i].reply.Answered?
    requires SafeAtLosses(run, path, i, j, run.steps[i].reply.event)
    requires run.steps[j].Call? && run.steps[j].submission.valid
    requires run.steps[j].submission.body.id == run.steps[i].submission.body.id
    ensures Kept(run.disks[j], run.disks[j + 1], path)
    ensures run.steps[i].reply.event in Visible(run.disks[j + 1], path) && UniqueIds(Visible(run.disks[j + 1], path))
    ensures run.steps[j].reply == NoReply || run.steps[j].reply ==
      if run.steps[j].submission.body == run.steps[i].submission.body && !run.steps[j].submission.unknownKeys
      then Answered(run.steps[i].reply.event) else Rejected(DuplicateId)
  {
    var d, e, step := run.disks[j], run.steps[i].reply.event, run.steps[j];
    AnsweredIsVisible(run, path, i);
    StaysVisible(run, path, i, j, e);
    TrailStaysGood(run, path, j);
    VisibleParses(d, path);
    assert IsStep(d, run.disks[j + 1], path, step);
    hide GoodFile, IsRun, MaySurvive, Sane, Durable, PlanAppend, ParseTrail, SafeAtLosses, IsStep;
    StoredIsRedelivered(TextOf(View(d, path)), e, step.submission, step.now);
    assert Kept(d, run.disks[j + 1], path);
    assert UniqueIds(Visible(d, path)) by { GoodIsUnique(TextOf(View(d, path))); }
  }

  lemma GoodIsUnique(text: Text)
    requires GoodTrail(text)
    ensures ParseTrail(text).Ok? && UniqueIds(ParseTrail(text).value)
  {
  }

  /**
   * The failing run: the first append of a session renames its file into place and is
   * refused because the directory does not sync; the retry finds the record and is told
   * it is stored; a power loss takes the whole trail back.
   */
  lemma AcknowledgedAndLost(d: Disk<Text>, path: string, temp: string, inode: nat, submission: Submission, now: Timestamp, retried: Timestamp)
    returns (run: Run)
    requires Sane(d) && SettledAs(d, path, None) && temp != path
    requires d.entry(temp).None? && d.candidates(temp) == {None} && inode !in d.content
    requires submission.valid && !submission.unknownKeys && WellFormed(Stamp([], submission, now))
    ensures var e := Stamp([], submission, now);
      && IsRun(run, path) && run.disks[0] == d
      && run.steps == [Call(submission, now, DIRECTORY_FAILS, WriteError),
                       Call(submission, retried, DIRECTORY_FAILS, Answered(e)), PowerLoss]
      && Visible(run.disks[2], path) == [e] && Visible(run.disks[3], path) == []
  {
    var e := Stamp([], submission, now);
    var text: Text := [Json(Record(e, "")), Newline];
    var renamed, lost := RenamedAndLost(d, path, temp, inode, text);
    run := Run([d, renamed, renamed, lost],
               [Call(submission, now, DIRECTORY_FAILS, WriteError),
                Call(submission, retried, DIRECTORY_FAILS, Answered(e)), PowerLoss]);
    EmptyTrailIsGood();
    SettledStarts(d, path, None);
    DirectoryFails();
    FirstPlan(submission, now);
    hide GoodTrail, MaySurvive, Sane, PlanAppend, ParseTrail, Done, CrashesTo, SettledAs, Stamp, WellFormed, GoodFile, DirectorySynced, View;
    assert TrailOf(None) == [] by { TrailOfNone(); }
    PlanExtends([], submission, now);
    GoodText(text);
    StoredIsRedelivered(text, e, submission, retried);
    assert IsStep(d, renamed, path, run.steps[0]);
    assert IsStep(renamed, renamed, path, run.steps[1]);
  }

  lemma TrailOfNone()
    ensures TrailOf(None) == [] && ParseTrail([]) == Ok([])
  {
    assert Lines([]) == [[]];
  }

  /** A rename whose directory never syncs, and the power loss that undoes it. */
  lemma RenamedAndLost(d: Disk<Text>, path: string, temp: string, inode: nat, text: Text)
    returns (renamed: Disk<Text>, lost: Disk<Text>)
    requires Sane(d) && SettledAs(d, path, None) && temp != path
    requires d.entry(temp).None? && d.candidates(temp) == {None} && inode !in d.content
    ensures Sane(renamed) && Replaced(d, renamed, path, text)
    ensures Sane(lost) && CrashesTo(renamed, lost) && View(lost, path) == None
  {
    TempIsPrepared(d, temp, inode, [], text);
    var ready := SyncFile(Fill(Create(d, temp, inode, []), inode, text), inode);
    RenamedIsReplaced(d, ready, path, temp, inode, text);
    renamed := Rename(ready, temp, path);
    assert MaySurvive(d, path, None);
    SurvivalIff(renamed, path, None);
    hide Sane, CrashesTo, Replaced, MaySurvive, View;
    lost :| CrashesTo(renamed, lost) && View(lost, path) == None;
    CrashSettles(renamed, lost, path);
  }

  lemma FirstPlan(submission: Submission, now: Timestamp)
    requires submission.valid && !submission.unknownKeys && WellFormed(Stamp([], submission, now))
    ensures var e := Stamp([], submission, now);
      PlanAppend([], submission, now) == Ok(Append(e, [Json(Record(e, "")), Newline]))
  {
    hide WellFormed, Stamp;
    assert Lines([]) == [[]];
    assert ParseTrail([]) == Ok([]);
    assert forall e: Event :: [] + [Json(Record(e, "")), Newline] == [Json(Record(e, "")), Newline];
  }

  lemma DirectoryFails()
    ensures Done(DIRECTORY_FAILS, 4) && !Done(DIRECTORY_FAILS, 5)
  {
    assert DIRECTORY_FAILS.renames[0] == Renamed;
    assert FailsAt(DIRECTORY_FAILS, 5);
  }

  // ---- A call that nothing stops ----

  /** What a submission must be to be appended to the visible trail. */
  predicate IsNew(events: seq<Event>, submission: Submission) {
    && submission.valid && !submission.unknownKeys
    && submission.body.id != "" && submission.body.session != ""
    && forall i :: 0 <= i < |events| ==> events[i].sealed.body.id != submission.body.id
  }

  /**
   * Over any good file, a call that gets an answer while the operating system refuses
   * nothing: a new event is answered as the next record, and the visible trail is longer by
   * exactly that record; anything else leaves the trail as it is.
   */
  lemma NewEventIsAnswered(d: Disk<Text>, after: Disk<Text>, path: string, step: Step)
    requires step.Call? && GoodFile(d, path) && IsStep(d, after, path, step)
    requires Done(step.answers, 5) && step.reply != NoReply
    ensures var events := Visible(d, path);
      if IsNew(events, step.submission) then
        && step.reply.Answered? && IsNextRecord(events, step.submission, step.now, step.reply.event)
        && Visible(after, path) == events + [step.reply.event]
      else Visible(after, path) == events
  {
    var text := TextOf(View(d, path));
    VisibleParses(d, path);
    StepMoves(d, after, path, step);
    assert Done(step.answers, 4);
    AcceptedIff(text, step.submission, step.now);
    if PlanAppend(text, step.submission, step.now).Ok? { PlanExtends(text, step.submission, step.now); }
    hide GoodTrail, MaySurvive, Sane, Durable, PlanAppend, Done, DirectorySynced, Stamp, GoodFile, ParseTrail, Settled, IsNextRecord, Moves;
  }

  // ---- The call itself ----

  /** appendAuditLineCore on the crash file system: a step of a run, whatever the operating system answers. */
  method AppendAuditLineCore(
    fs: FileSystem<Text>, path: string, temp: string, inode: nat,
    submission: Submission, now: Timestamp, answers: Answers)
    returns (reply: Reply)
    requires Sane(fs.disk) && temp != path
    requires fs.disk.entry(temp).None? && fs.disk.candidates(temp) == {None} && inode !in fs.disk.content
    requires |answers.renames| >= 3
    modifies fs
    ensures IsStep(old(fs.disk), fs.disk, path, Call(submission, now, answers, reply))
    ensures reply == NoReply ==> answers.steps < 5 && Done(answers, answers.steps)
  {
    hide ParseTrail, Sane, MaySurvive, Settled, Stamp, WellFormed, OtherKept, Kept, Replaced, SettledAs, Done;
    KeptAtFirst(fs.disk);
    var existing := TextOf(View(fs.disk, path));
    if !submission.valid {
      return Rejected(InvalidBody);
    }
    var parsed := ParseAuditTrail(existing);
    if parsed.Err? {
      return Rejected(parsed.error);
    }
    var sameId := FindId(parsed.value, submission.body.id);
    if sameId.Some? {
      if !submission.unknownKeys && ContentDigest(sameId.value.sealed) == CommitDigest(submission.body) {
        return Answered(sameId.value);
      }
      return Rejected(DuplicateId);
    }
    var event := Stamp(parsed.value, submission, now);
    if submission.unknownKeys || !WellFormed(event) {
      return Rejected(InvalidEvent);
    }
    var text := existing + [Json(Record(event, "")), Newline];
    assert PlanAppend(existing, submission, now) == Ok(Append(event, text));
    var outcome := fs.DurableAtomicWrite(path, temp, inode, [], text, answers);
    match outcome {
      case Written => reply := Answered(event);
      case WriteFailed => reply := WriteError;
      case Crashed => reply := NoReply;
    }
  }

  /** appendAuditLineAtomically: the call, as its caller under the audit lock sees it. */
  method AppendAuditLine(
    fs: FileSystem<Text>, path: string, temp: string, inode: nat,
    submission: Submission, now: Timestamp, answers: Answers)
    returns (reply: Reply)
    requires Sane(fs.disk) && temp != path
    requires fs.disk.entry(temp).None? && fs.disk.candidates(temp) == {None} && inode !in fs.disk.content
    requires |answers.renames| >= 3
    modifies fs
    ensures IsStep(old(fs.disk), fs.disk, path, Call(submission, now, answers, reply))
    // The caller goes unanswered only if it dies in the write.
    ensures reply == NoReply ==> answers.steps < 5 && Done(answers, answers.steps)
    // A new event is answered and visible when the operating system refuses nothing.
    ensures GoodFile(old(fs.disk), path) && Done(answers, 5) && IsNew(Visible(old(fs.disk), path), submission) ==>
      && reply.Answered?
      && IsNextRecord(Visible(old(fs.disk), path), submission, now, reply.event)
      && Visible(fs.disk, path) == Visible(old(fs.disk), path) + [reply.event]
  {
    ghost var before := fs.disk;
    hide GoodFile, IsStep, IsNew, IsNextRecord, Visible, Done;
    reply := AppendAuditLineCore(fs, path, temp, inode, submission, now, answers);
    if GoodFile(before, path) && Done(answers, 5) {
      NewEventIsAnswered(before, fs.disk, path, Call(submission, now, answers, reply));
    }
  }
}
