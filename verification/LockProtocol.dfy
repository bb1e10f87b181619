/**
 * The lockfile protocol of any number of acquirers that may die
 * (src/adapters/persistence-lock.ts), one file-system call per step.
 *
 * An agent is one call of acquireNamedWriteLock with its own token; agents of one
 * process share a pid. A dead pid stays dead. A body is written piece by piece: as
 * long as it shows no pid it counts as live, and a torn one may show another's pid.
 */
module LockProtocol {
  import opened Results
  import LockBody

  type Agent = nat

  /** How much of a body is written: its first characters, or all of it. */
  datatype Body = Cut(chars: nat) | Whole

  datatype LockFile = LockFile(creator: Agent, body: Body)

  datatype Phase =
    | Trying                            // about to create with O_EXCL
    | Created                           // created, body not yet written to its end
    | Holding
    | Observing                         // creation failed: about to read the body
    | Judging(observed: LockFile)       // about to test the pid read
    | Confirming(observed: LockFile)    // stale: about to read the body again
    | Removing(observed: LockFile)      // unchanged: about to unlink
    | Polling
    | Releasing                         // about to read the body for its own token
    | Unlinking                         // own token seen: about to unlink
    | Finished                          // released, timed out, or failed

  datatype State = State(
    file: Option<LockFile>,
    phase: Agent -> Phase,
    pid: Agent -> nat,
    dead: set<nat>)

  predicate Alive(s: State, a: Agent) {
    s.pid(a) !in s.dead
  }

  /** The pid a reader of the file finds in its body. */
  function Shown(s: State, f: LockFile): Option<nat> {
    match f.body
    case Whole => Some(s.pid(f.creator))
    case Cut(chars) => LockBody.CutPid(s.pid(f.creator), chars)
  }

  predicate Stale(s: State, f: LockFile) {
    var shown := Shown(s, f);
    shown.Some? && shown.value in s.dead
  }

  /** Next call of an agent, a part of its body written, the failure of that write, the end of its patience, or the death of a process. */
  datatype Action = Act(agent: Agent) | Tear(agent: Agent, chars: nat) | Fail(agent: Agent) | GiveUp(agent: Agent) | Die(pid: nat)

  function SetPhase(s: State, a: Agent, p: Phase): State {
    s.(phase := (b: Agent) => if b == a then p else s.phase(b))
  }

  /** The name still leads to the file the agent is writing. */
  predicate Writes(s: State, a: Agent) {
    s.phase(a) == Created && s.file.Some? && s.file.value.creator == a && s.file.value.body.Cut?
  }

  function Advance(s: State, a: Agent): State {
    match s.phase(a)
    case Trying =>
      if s.file.None? then SetPhase(s.(file := Some(LockFile(a, Cut(0)))), a, Created)
      else SetPhase(s, a, Observing)
    case Created =>
      // The write goes to the created file, whether or not the name still leads to it.
      SetPhase(if Writes(s, a) then s.(file := Some(LockFile(a, Whole))) else s, a, Holding)
    case Holding => SetPhase(s, a, Releasing)
    case Observing =>
      SetPhase(s, a, if s.file.None? then Trying else Judging(s.file.value))
    case Judging(observed) =>
      SetPhase(s, a, if Stale(s, observed) then Confirming(observed) else Polling)
    case Confirming(observed) =>
      SetPhase(s, a, if s.file == Some(observed) then Removing(observed) else Polling)
    case Removing(_) => SetPhase(s.(file := None), a, Trying)
    case Polling => SetPhase(s, a, Trying)
    case Releasing =>
      SetPhase(s, a, if s.file == Some(LockFile(a, Whole)) then Unlinking else Finished)
    case Unlinking => SetPhase(s.(file := None), a, Finished)
    case Finished => s
  }

  function Apply(s: State, action: Action): State {
    match action
    case Act(a) => if Alive(s, a) then Advance(s, a) else s
    case Tear(a, chars) =>
      if Alive(s, a) && Writes(s, a) then s.(file := Some(LockFile(a, Cut(chars)))) else s
    case Fail(a) => if Alive(s, a) && s.phase(a) == Created then SetPhase(s, a, Finished) else s
    case GiveUp(a) => if Alive(s, a) && s.phase(a) == Polling then SetPhase(s, a, Finished) else s
    case Die(pid) => s.(dead := s.dead + {pid})
  }

  function Exec(s: State, actions: seq<Action>): State {
    if actions == [] then s
    else Apply(Exec(s, actions[..|actions| - 1]), actions[|actions| - 1])
  }

  ghost predicate Initial(s: State) {
    s.file.None? && forall a {:trigger s.phase(a)} :: s.phase(a) == Trying
  }

  /** The agent has the lock: from creating the file to unlinking it. */
  predicate Owns(s: State, a: Agent) {
    var p := s.phase(a);
    p.Created? || p.Holding? || p.Releasing? || p.Unlinking?
  }

  /** The file belongs to a live owner. */
  predicate Protected(s: State) {
    s.file.Some? && Alive(s, s.file.value.creator) && Owns(s, s.file.value.creator)
  }

  /** A body shows no pid, or its creator's. */
  predicate Truthful(s: State, f: LockFile) {
    var shown := Shown(s, f);
    shown.None? || shown.value == s.pid(f.creator)
  }

  /**
   * What the design intends. A takeover unlink finds what it confirmed, or nothing:
   * the re-check and the unlink act as one step, where the code only narrows the gap
   * between the two. And no body is torn inside its pid.
   */
  predicate Undisturbed(s: State, action: Action) {
    match action
    case Act(a) => Alive(s, a) && s.phase(a).Removing? ==> s.file.None? || s.file.value == s.phase(a).observed
    case Tear(a, chars) => Truthful(s, LockFile(a, Cut(chars)))
    case _ => true
  }

  ghost predicate UndisturbedRun(s: State, actions: seq<Action>) {
    forall i :: 0 <= i < |actions| ==> Undisturbed(Exec(s, actions[..i]), actions[i])
  }

  /** The file of an owner: complete once its creator is past writing it. */
  predicate OwnFile(s: State, a: Agent) {
    s.file.Some? && s.file.value.creator == a && (s.file.value.body.Cut? <==> s.phase(a).Created?)
  }

  /** A live owner's file is in place, and only stale bodies are being removed. */
  ghost predicate Inv(s: State) {
    && (forall a :: Alive(s, a) && Owns(s, a) ==> OwnFile(s, a))
    && (forall a {:trigger s.phase(a)} :: s.phase(a).Confirming? || s.phase(a).Removing? ==>
          Stale(s, s.phase(a).observed))
  }

  predicate TruthfulFile(s: State) {
    s.file.Some? ==> Truthful(s, s.file.value)
  }

  /** A takeover unlink does not hit a live owner's file. */
  predicate Harmless(s: State, action: Action) {
    match action
    case Act(a) => Alive(s, a) && s.phase(a).Removing? ==> !Protected(s)
    case _ => true
  }

  lemma IntendedIsHarmless(s: State, action: Action)
    requires Inv(s) && TruthfulFile(s) && Undisturbed(s, action)
    ensures Harmless(s, action) && TruthfulFile(Apply(s, action))
  {
  }

  lemma InvStep(s: State, action: Action)
    requires Inv(s) && Harmless(s, action)
    ensures Inv(Apply(s, action))
  {
    hide LockBody.CutPid;
    var t := Apply(s, action);
    forall a | Alive(t, a) && Owns(t, a) ensures OwnFile(t, a) {
      assert Alive(s, a);
      if Owns(s, a) {
        assert OwnFile(s, a);
      }
    }
    forall a {:trigger t.phase(a)} | t.phase(a).Confirming? || t.phase(a).Removing?
      ensures Stale(t, t.phase(a).observed)
    {
    }
  }

  lemma {:induction false} InvRun(s: State, actions: seq<Action>)
    requires Initial(s) && UndisturbedRun(s, actions)
    ensures Inv(Exec(s, actions)) && TruthfulFile(Exec(s, actions))
  {
    if actions != [] {
      hide Inv, Undisturbed, Apply, TruthfulFile, Harmless;
      var n := |actions| - 1;
      UndisturbedPrefix(s, actions, n);
      InvRun(s, actions[..n]);
      IntendedIsHarmless(Exec(s, actions[..n]), actions[n]);
      InvStep(Exec(s, actions[..n]), actions[n]);
    }
  }

  /** Mutual exclusion: in every undisturbed run at most one live agent has the lock. */
  lemma MutualExclusion(s: State, actions: seq<Action>, a: Agent, b: Agent)
    requires Initial(s) && UndisturbedRun(s, actions)
    requires var t := Exec(s, actions); Alive(t, a) && Owns(t, a) && Alive(t, b) && Owns(t, b)
    ensures a == b
  {
    InvRun(s, actions);
  }

  /** The file changes by its creator: a piece of the body, the end of the body, or the unlink of the whole. */
  predicate OwnChange(s: State, action: Action)
    requires s.file.Some?
  {
    var owner, after := s.file.value.creator, Apply(s, action).file;
    || (action == Act(owner) && s.phase(owner) == Unlinking && s.file == Some(LockFile(owner, Whole)))
    || (action == Act(owner) && s.phase(owner) == Created && after == Some(LockFile(owner, Whole)))
    || (action.Tear? && action.agent == owner && s.phase(owner) == Created && after == Some(LockFile(owner, Cut(action.chars))))
  }

  lemma OwnerActs(t: State, action: Action)
    requires Inv(t) && Harmless(t, action)
    requires Protected(t) && Apply(t, action).file != t.file
    ensures OwnChange(t, action)
  {
    var owner := t.file.value.creator;
    assert OwnFile(t, owner);
    var a := action.agent;
    if Owns(t, a) {
      assert OwnFile(t, a);
    }
  }

  lemma UndisturbedPrefix(s: State, actions: seq<Action>, n: nat)
    requires UndisturbedRun(s, actions) && n <= |actions|
    ensures UndisturbedRun(s, actions[..n])
    ensures n < |actions| ==> Undisturbed(Exec(s, actions[..n]), actions[n])
  {
    hide Undisturbed, Exec;
    forall i | 0 <= i < n ensures Undisturbed(Exec(s, actions[..n][..i]), actions[..n][i]) {
      assert actions[..n][..i] == actions[..i];
      assert Undisturbed(Exec(s, actions[..i]), actions[i]);
    }
  }

  /** A live owner's file changes only by the owner's own writes or unlink, and its unlink removes its own token. */
  lemma OnlyOwnerRemoves(s: State, actions: seq<Action>, action: Action)
    requires Initial(s) && UndisturbedRun(s, actions + [action])
    requires var t := Exec(s, actions); Protected(t) && Apply(t, action).file != t.file
    ensures OwnChange(Exec(s, actions), action)
  {
    hide Undisturbed, Inv, Apply, Exec, Harmless, Protected, TruthfulFile, OwnChange;
    var longer := actions + [action];
    assert longer[..|actions|] == actions && longer[|actions|] == action;
    UndisturbedPrefix(s, longer, |actions|);
    InvRun(s, actions);
    IntendedIsHarmless(Exec(s, actions), action);
    OwnerActs(Exec(s, actions), action);
  }

  lemma RemovalSafeIff(s: State, action: Action)
    requires Inv(s)
    ensures Inv(Apply(s, action)) <==> Harmless(s, action)
  {
    if Harmless(s, action) {
      InvStep(s, action);
    } else {
      var owner := s.file.value.creator;
      var t := Apply(s, action);
      assert owner != action.agent;
      assert Alive(t, owner) && Owns(t, owner);
    }
  }

  // ---- Without the intent ----

  ghost predicate HarmlessRun(s: State, actions: seq<Action>) {
    forall n :: 0 <= n < |actions| ==> Harmless(Exec(s, actions[..n]), actions[n])
  }

  /** At most one live agent has the lock. */
  ghost predicate Exclusive(s: State) {
    forall a, b :: Alive(s, a) && Owns(s, a) && Alive(s, b) && Owns(s, b) ==> a == b
  }

  lemma HarmlessPrefix(s: State, actions: seq<Action>, n: nat)
    requires n <= |actions| && forall k :: 0 <= k < n ==> Harmless(Exec(s, actions[..k]), actions[k])
    ensures HarmlessRun(s, actions[..n])
  {
    hide Harmless, Exec;
    forall k | 0 <= k < n ensures Harmless(Exec(s, actions[..n][..k]), actions[..n][k]) {
      assert actions[..n][..k] == actions[..k];
    }
  }

  /** While no takeover unlink hits a live owner's file, every live owner keeps its file. */
  lemma {:induction false} HarmlessKeeps(s: State, actions: seq<Action>)
    requires Inv(s) && HarmlessRun(s, actions)
    ensures Inv(Exec(s, actions)) && Exclusive(Exec(s, actions))
  {
    if actions != [] {
      hide Apply, Harmless, Inv, Exclusive;
      var n := |actions| - 1;
      HarmlessPrefix(s, actions, n);
      HarmlessKeeps(s, actions[..n]);
      InvStep(Exec(s, actions[..n]), actions[n]);
      InvExcludes(Exec(s, actions));
    } else {
      InvExcludes(s);
    }
  }

  lemma InvExcludes(s: State)
    requires Inv(s)
    ensures Exclusive(s)
  {
  }

  /** The first takeover unlink of a run that hits a live owner's file. */
  lemma {:induction false} FirstHarm(s: State, actions: seq<Action>) returns (n: nat)
    requires !HarmlessRun(s, actions)
    ensures n < |actions| && HarmlessRun(s, actions[..n]) && !Harmless(Exec(s, actions[..n]), actions[n])
  {
    hide Harmless, Exec;
    var m := |actions| - 1;
    if HarmlessRun(s, actions[..m]) {
      n := m;
      forall k | 0 <= k < m ensures Harmless(Exec(s, actions[..k]), actions[k]) {
        assert actions[..m][..k] == actions[..k];
        assert Harmless(Exec(s, actions[..m][..k]), actions[..m][k]);
      }
    } else {
      n := FirstHarm(s, actions[..m]);
      assert actions[..m][..n] == actions[..n];
    }
  }

  /** The next k calls of one agent. */
  function Calls(a: Agent, k: nat): seq<Action> {
    seq(k, _ => Act(a))
  }

  /** The calls of one agent leave every other agent where it was. */
  lemma {:induction false} AloneMoves(s: State, a: Agent, k: nat)
    ensures var t := Exec(s, Calls(a, k));
      t.dead == s.dead && t.pid == s.pid && forall b: Agent {:trigger t.phase(b)} :: b != a ==> t.phase(b) == s.phase(b)
  {
    if k > 0 {
      var calls := Calls(a, k);
      assert calls[..k - 1] == Calls(a, k - 1) && calls[k - 1] == Act(a);
      AloneMoves(s, a, k - 1);
    }
  }

  /**
   * An agent about to unlink can, by its own next calls, come to have the lock beside
   * another live agent exactly when its unlink hits the file of a live owner.
   */
  lemma UnlinkBreaksExclusionIff(s: State, a: Agent)
    requires Inv(s) && Alive(s, a) && s.phase(a).Removing?
    ensures (exists k: nat :: !Exclusive(Exec(s, Calls(a, k)))) <==> Protected(s)
  {
    if Protected(s) {
      HarmfulUnlinkBreaks(s, [], s, a);
      assert [] + [Act(a)] + [Act(a)] + [Act(a)] == Calls(a, 3);
    } else {
      hide Exec;
      forall k: nat ensures Exclusive(Exec(s, Calls(a, k))) {
        AloneMoves(s, a, k);
        var t := Exec(s, Calls(a, k));
        forall b | Alive(t, b) && Owns(t, b) ensures b == a {
          assert b != a ==> Alive(s, b) && Owns(s, b) && OwnFile(s, b);
        }
      }
    }
  }

  lemma HarmfulUnlinkBreaks(s: State, done: seq<Action>, now: State, a: Agent)
    requires Exec(s, done) == now && Alive(now, a) && now.phase(a).Removing? && Protected(now)
    ensures !Exclusive(Exec(s, done + [Act(a)] + [Act(a)] + [Act(a)]))
  {
    hide Exec, Advance;
    var t, longer := TakesOver(s, done, now, a);
    var owner := now.file.value.creator;
    assert owner != a;
    assert Alive(t, a) && Owns(t, a) && Alive(t, owner) && Owns(t, owner);
  }

  /**
   * Without any assumption on the gap or on torn bodies: from a state in which live
   * owners have their files, at most one live agent ever has the lock, on every run,
   * exactly when on no run a takeover unlink hits the file of a live owner.
   */
  lemma ExclusionIff(s: State)
    requires Inv(s)
    ensures (forall actions :: Exclusive(Exec(s, actions))) <==> (forall actions :: HarmlessRun(s, actions))
  {
    hide Exec, Exclusive, Inv, HarmlessRun, Advance;
    if forall actions :: HarmlessRun(s, actions) {
      forall actions ensures Exclusive(Exec(s, actions)) {
        HarmlessKeeps(s, actions);
      }
    }
    if actions: seq<Action> :| !HarmlessRun(s, actions) {
      var n := FirstHarm(s, actions);
      HarmlessKeeps(s, actions[..n]);
      var a := actions[n].agent;
      HarmfulUnlinkBreaks(s, actions[..n], Exec(s, actions[..n]), a);
      assert !Exclusive(Exec(s, actions[..n] + [Act(a)] + [Act(a)] + [Act(a)]));
    }
  }

  /** Four calls of an agent that meets a stale body: create, read, test the pid, read again. */
  lemma ConfirmsStale(s: State, done: seq<Action>, now: State, a: Agent) returns (t: State, longer: seq<Action>)
    requires Exec(s, done) == now && Alive(now, a) && now.phase(a) == Trying
    requires now.file.Some? && Stale(now, now.file.value)
    ensures Exec(s, longer) == t && longer == done + [Act(a)] + [Act(a)] + [Act(a)] + [Act(a)]
    ensures t.file == now.file && t.dead == now.dead && t.pid == now.pid
    ensures t.phase(a) == Removing(now.file.value)
    ensures forall b: Agent {:trigger t.phase(b)} :: b != a ==> t.phase(b) == now.phase(b)
  {
    var s1, s2, s3 := Advance(now, a), Advance(Advance(now, a), a), Advance(Advance(Advance(now, a), a), a);
    assert s1.phase(a) == Observing && s2.phase(a) == Judging(now.file.value) && s3.phase(a) == Confirming(now.file.value);
    longer := done + [Act(a)] + [Act(a)] + [Act(a)] + [Act(a)];
    t := Advance(s3, a);
    ExecMore(s, done, Act(a));
    ExecMore(s, done + [Act(a)], Act(a));
    ExecMore(s, done + [Act(a)] + [Act(a)], Act(a));
    ExecMore(s, done + [Act(a)] + [Act(a)] + [Act(a)], Act(a));
  }

  /** Three calls of an agent about to unlink: unlink whatever is there, create, write. */
  lemma TakesOver(s: State, done: seq<Action>, now: State, a: Agent) returns (t: State, longer: seq<Action>)
    requires Exec(s, done) == now && Alive(now, a) && now.phase(a).Removing?
    ensures Exec(s, longer) == t && longer == done + [Act(a)] + [Act(a)] + [Act(a)]
    ensures t.file == Some(LockFile(a, Whole)) && t.dead == now.dead && t.pid == now.pid
    ensures t.phase(a) == Holding
    ensures forall b: Agent {:trigger t.phase(b)} :: b != a ==> t.phase(b) == now.phase(b)
  {
    var s1, s2 := Advance(now, a), Advance(Advance(now, a), a);
    assert s1.phase(a) == Trying && s2.phase(a) == Created;
    longer := done + [Act(a)] + [Act(a)] + [Act(a)];
    t := Advance(s2, a);
    ExecMore(s, done, Act(a));
    ExecMore(s, done + [Act(a)], Act(a));
    ExecMore(s, done + [Act(a)] + [Act(a)], Act(a));
  }

  /** An agent acquires and dies: its complete body stays behind. */
  lemma HolderDies(s: State, x: Agent) returns (t: State, actions: seq<Action>)
    requires Initial(s) && Alive(s, x)
    ensures Exec(s, actions) == t
    ensures t.file == Some(LockFile(x, Whole)) && t.dead == s.dead + {s.pid(x)} && t.pid == s.pid
    ensures forall b: Agent {:trigger t.phase(b)} :: b != x ==> t.phase(b) == Trying
  {
    assert s.phase(x) == Trying;
    var s1 := Advance(s, x);
    assert s1.phase(x) == Created;
    actions := [] + [Act(x)] + [Act(x)] + [Die(s.pid(x))];
    t := Apply(Advance(s1, x), Die(s.pid(x)));
    ExecMore(s, [], Act(x));
    ExecMore(s, [] + [Act(x)], Act(x));
    ExecMore(s, [] + [Act(x)] + [Act(x)], Die(s.pid(x)));
  }

  /**
   * The gap is real: x dies holding the lock, b and c both confirm its body, b removes
   * it and acquires, then c removes the new file and acquires too.
   */
  lemma TakeoverRace(s: State, x: Agent, b: Agent, c: Agent)
    requires Initial(s) && AreRivals(s, x, b, c)
    ensures exists actions ::
      var t := Exec(s, actions);
      t.phase(b) == Holding && t.phase(c) == Holding && Alive(t, b) && Alive(t, c)
  {
    hide Exec, Apply, Advance;
    var t0, r0 := HolderDies(s, x);
    var t1, r1 := ConfirmsStale(s, r0, t0, b);
    var t2, r2 := ConfirmsStale(s, r1, t1, c);
    var t3, r3 := TakesOver(s, r2, t2, b);
    var t4, r4 := TakesOver(s, r3, t3, c);
    assert Exec(s, r4) == t4;
  }

  /** Three live agents, the first of a process that neither of the others is. */
  predicate AreRivals(s: State, x: Agent, b: Agent, c: Agent) {
    && Alive(s, x) && Alive(s, b) && Alive(s, c)
    && b != c && s.pid(x) != s.pid(b) && s.pid(x) != s.pid(c)
  }

  /** A part of x's body shows the pid of neither x nor b. */
  predicate IsMistakable(s: State, x: Agent, b: Agent, chars: nat) {
    && Alive(s, x) && Alive(s, b) && x != b
    && var shown := LockBody.CutPid(s.pid(x), chars);
    && shown.Some? && shown.value != s.pid(x) && shown.value != s.pid(b)
  }

  /**
   * A torn body needs no gap: x has written a part of its body when b reads it as that of
   * a process which is dead, and removes exactly what it confirmed.
   */
  lemma TornBodyRace(s: State, x: Agent, b: Agent, chars: nat)
    requires Initial(s) && IsMistakable(s, x, b, chars)
    ensures exists before ::
      var t := Exec(s, before);
      && Alive(t, b) && t.phase(b).Removing? && t.file == Some(t.phase(b).observed)
      && !Exclusive(Exec(s, before + Calls(b, 3)))
  {
    var torn, begun := TearsBody(s, x, chars);
    hide Exec, Advance, LockBody.CutPid;
    assert Stale(torn, torn.file.value);
    var t, before := ConfirmsStale(s, begun, torn, b);
    assert Protected(t);
    HarmfulUnlinkBreaks(s, before, t, b);
    assert before + [Act(b)] + [Act(b)] + [Act(b)] == before + Calls(b, 3);
  }

  /** An agent creates the file and writes a part of its body; then the process dies whose pid that shows. */
  lemma TearsBody(s: State, x: Agent, chars: nat) returns (t: State, actions: seq<Action>)
    requires Initial(s) && Alive(s, x) && LockBody.CutPid(s.pid(x), chars).Some?
    ensures Exec(s, actions) == t && t.file == Some(LockFile(x, Cut(chars))) && t.pid == s.pid
    ensures t.dead == s.dead + {LockBody.CutPid(s.pid(x), chars).value}
    ensures t.phase(x) == Created && forall b: Agent {:trigger t.phase(b)} :: b != x ==> t.phase(b) == Trying
  {
    hide LockBody.CutPid;
    assert s.phase(x) == Trying;
    var death := Die(LockBody.CutPid(s.pid(x), chars).value);
    actions := [] + [Act(x)] + [Tear(x, chars)] + [death];
    t := Apply(Apply(Advance(s, x), Tear(x, chars)), death);
    ExecMore(s, [], Act(x));
    ExecMore(s, [] + [Act(x)], Tear(x, chars));
    ExecMore(s, [] + [Act(x)] + [Tear(x, chars)], death);
  }

  /** Such agents: of pid 12, whose body may show pid 1, and any other that is not of pid 1. */
  lemma TwelveIsMistakable(s: State, x: Agent, b: Agent)
    requires Alive(s, x) && Alive(s, b) && x != b && s.pid(x) == 12 && s.pid(b) != 1
    ensures IsMistakable(s, x, b, 5)
  {
    LockBody.CutTwelve();
  }

  // ---- Which fresh starts are safe ----

  /** The agent was alive at the start, and has created its file. */
  predicate Begun(s: State, t: State, x: Agent) {
    Alive(s, x) && (Owns(t, x) || t.phase(x).Finished?)
  }

  /** Every body in place or under observation is that of an agent which has begun. */
  ghost predicate Traced(s: State, t: State) {
    && t.pid == s.pid && s.dead <= t.dead
    && (t.file.Some? ==> Begun(s, t, t.file.value.creator))
    && forall a {:trigger t.phase(a)} ::
         t.phase(a).Judging? || t.phase(a).Confirming? || t.phase(a).Removing? ==>
           Begun(s, t, t.phase(a).observed.creator)
  }

  lemma TracedStep(s: State, t: State, action: Action)
    requires Traced(s, t)
    ensures Traced(s, Apply(t, action))
  {
    hide LockBody.CutPid, Stale;
    var u := Apply(t, action);
    forall x | Begun(s, t, x) ensures Begun(s, u, x) {
    }
    forall a {:trigger u.phase(a)} | u.phase(a).Judging? || u.phase(a).Confirming? || u.phase(a).Removing?
      ensures Begun(s, u, u.phase(a).observed.creator)
    {
      if action.Act? && action.agent == a && t.phase(a).Observing? {
        assert t.file.Some?;
      }
    }
  }

  /** A harmful unlink needs rivals, or a body that can be mistaken. */
  lemma HarmNeedsRivals(s: State, t: State, action: Action)
    requires Traced(s, t) && Inv(t) && !Harmless(t, action)
    ensures || (exists x, b, c :: AreRivals(s, x, b, c)) || (exists x, b, chars :: IsMistakable(s, x, b, chars))
  {
    hide LockBody.CutPid;
    var a, owner := action.agent, t.file.value.creator;
    var f := t.phase(a).observed;
    assert Begun(s, t, f.creator) && Stale(t, f);
    assert owner != a && f.creator != a;
    if Shown(t, f).value == s.pid(f.creator) {
      assert AreRivals(s, f.creator, a, owner);
    } else {
      assert IsMistakable(s, f.creator, a, f.body.chars);
    }
  }

  lemma {:induction false} FreshIsHarmless(s: State, actions: seq<Action>)
    requires Initial(s)
    requires !(exists x, b, c :: AreRivals(s, x, b, c)) && !(exists x, b, chars :: IsMistakable(s, x, b, chars))
    ensures HarmlessRun(s, actions) && Traced(s, Exec(s, actions))
  {
    if actions != [] {
      hide Apply, Harmless, Inv, Traced, AreRivals, IsMistakable, Initial;
      var n := |actions| - 1;
      FreshIsHarmless(s, actions[..n]);
      FreshInv(s);
      HarmlessKeeps(s, actions[..n]);
      var t := Exec(s, actions[..n]);
      if !Harmless(t, actions[n]) { HarmNeedsRivals(s, t, actions[n]); }
      TracedStep(s, t, actions[n]);
      forall k | 0 <= k < |actions| ensures Harmless(Exec(s, actions[..k]), actions[k]) {
        assert actions[..n][..k] == actions[..k];
        if k < n { assert Harmless(Exec(s, actions[..n][..k]), actions[..n][k]); }
      }
    }
  }

  lemma FreshInv(s: State)
    requires Initial(s)
    ensures Inv(s)
  {
  }

  /**
   * Which starts are safe, by the pids alone: from a fresh start at most one live agent has
   * the lock on all runs if and only if no three live agents are there of which one is of
   * another process than the other two, and no two of which one's pid has a leading part
   * that is neither's pid.
   */
  lemma FreshExclusionIff(s: State)
    requires Initial(s)
    ensures (forall actions :: Exclusive(Exec(s, actions))) <==>
      !(exists x, b, c :: AreRivals(s, x, b, c)) && !(exists x, b, chars :: IsMistakable(s, x, b, chars))
  {
    hide Exec, AreRivals, IsMistakable, Inv, Initial, Exclusive;
    if x, b, c :| AreRivals(s, x, b, c) {
      RivalsBreak(s, x, b, c);
    } else if x, b, chars :| IsMistakable(s, x, b, chars) {
      TornBodyRace(s, x, b, chars);
    } else {
      forall actions ensures Exclusive(Exec(s, actions)) {
        FreshIsHarmless(s, actions);
        FreshInv(s);
        HarmlessKeeps(s, actions);
      }
    }
  }

  lemma RivalsBreak(s: State, x: Agent, b: Agent, c: Agent)
    requires Initial(s) && AreRivals(s, x, b, c)
    ensures exists actions :: !Exclusive(Exec(s, actions))
  {
    TakeoverRace(s, x, b, c);
    hide Exec;
    var actions :| var t := Exec(s, actions);
      t.phase(b) == Holding && t.phase(c) == Holding && Alive(t, b) && Alive(t, c);
    assert Owns(Exec(s, actions), b) && Owns(Exec(s, actions), c);
  }

  lemma ExecMore(s: State, actions: seq<Action>, action: Action)
    ensures Exec(s, actions + [action]) == Apply(Exec(s, actions), action)
  {
    assert (actions + [action])[..|actions|] == actions;
  }

  // ---- What happens after a death ----

  /** A holder that died with a complete body blocks nobody: a live agent takes over in seven calls of its own. */
  lemma StaleLockIsTakenOver(s: State, done: seq<Action>, a: Agent)
    requires var now := Exec(s, done);
      Alive(now, a) && now.phase(a) == Trying && now.file.Some? && Stale(now, now.file.value)
    ensures var t := Exec(s, done + Calls(a, 7));
      t.phase(a) == Holding && t.file == Some(LockFile(a, Whole))
  {
    hide Exec, Advance;
    var t1, r1 := ConfirmsStale(s, done, Exec(s, done), a);
    var t2, r2 := TakesOver(s, r1, t1, a);
    assert r2 == done + Calls(a, 7);
  }

  /**
   * A file whose creator died, or failed, before its body shows a pid blocks everybody for
   * good: in every undisturbed continuation it stays and no live agent ever has the lock.
   */
  lemma {:induction false} HalfWrittenLockIsFinal(s: State, before: seq<Action>, actions: seq<Action>)
    requires Initial(s) && UndisturbedRun(s, before + actions)
    requires var t := Exec(s, before); t.file.Some? && Shown(t, t.file.value).None? && !Protected(t)
    ensures var t := Exec(s, before + actions);
      && t.file == Exec(s, before).file && !Protected(t)
      && forall a :: Alive(t, a) ==> !Owns(t, a)
  {
    var whole := before + actions;
    if actions == [] {
      assert whole == before;
      InvRun(s, whole);
      NobodyOwns(Exec(s, whole));
    } else {
      hide Apply, Inv, Initial, Undisturbed, Owns, Exec, TruthfulFile, Protected, Alive;
      var n := |actions| - 1;
      var shorter := before + actions[..n];
      assert whole == shorter + [actions[n]];
      assert whole[..|shorter|] == shorter && whole[|shorter|] == actions[n];
      UndisturbedPrefix(s, whole, |shorter|);
      HalfWrittenLockIsFinal(s, before, actions[..n]);
      InvRun(s, shorter);
      ExecMore(s, shorter, actions[n]);
      SamePids(s, before);
      SamePids(s, shorter);
      HalfWrittenStays(Exec(s, shorter), actions[n]);
      InvRun(s, whole);
      NobodyOwns(Exec(s, whole));
    }
  }

  lemma {:induction false} SamePids(s: State, actions: seq<Action>)
    ensures Exec(s, actions).pid == s.pid
  {
    if actions != [] {
      SamePids(s, actions[..|actions| - 1]);
    }
  }

  lemma NobodyOwns(s: State)
    requires Inv(s) && s.file.Some? && !Protected(s)
    ensures forall a :: Alive(s, a) ==> !Owns(s, a)
  {
    assert forall a :: Alive(s, a) && Owns(s, a) ==> OwnFile(s, a);
  }

  lemma HalfWrittenStays(s: State, action: Action)
    requires Inv(s) && TruthfulFile(s) && Undisturbed(s, action)
    requires s.file.Some? && Shown(s, s.file.value).None? && !Protected(s)
    ensures Apply(s, action).file == s.file && !Protected(Apply(s, action))
  {
    hide LockBody.CutPid;
    NobodyOwns(s);
    if action.Act? && Alive(s, action.agent) {
      assert !Owns(s, action.agent);
    }
  }

  /** A creator may die before it writes, two events from a fresh start. */
  lemma CreatorMayDie(s: State)
    requires Initial(s) && Alive(s, 0)
    ensures Abandons(s, [Act(0), Die(s.pid(0))])
  {
    var before := [Act(0), Die(s.pid(0))];
    assert s.phase(0) == Trying;
    TwoEvents(s, before);
  }

  /** Or live on, when its write fails: the file it created stays. */
  lemma WriteMayFail(s: State)
    requires Initial(s) && Alive(s, 0)
    ensures Abandons(s, [Act(0), Fail(0)])
    ensures Alive(Exec(s, [Act(0), Fail(0)]), 0)
  {
    var before := [Act(0), Fail(0)];
    assert s.phase(0) == Trying;
    TwoEvents(s, before);
  }

  /** An undisturbed run that ends in such a file. */
  ghost predicate Abandons(s: State, before: seq<Action>) {
    && UndisturbedRun(s, before)
    && var t := Exec(s, before);
    && t.file.Some? && Shown(t, t.file.value).None? && !Protected(t)
  }

  lemma TwoEvents(s: State, before: seq<Action>)
    requires |before| == 2
    ensures Exec(s, before) == Apply(Apply(s, before[0]), before[1])
    ensures UndisturbedRun(s, before) <==> Undisturbed(s, before[0]) && Undisturbed(Apply(s, before[0]), before[1])
  {
    hide Undisturbed, Apply;
    var first := before[..1];
    assert before[..0] == [] && first[..0] == [] && first[0] == before[0];
    assert Exec(s, before[..0]) == s && Exec(s, first) == Apply(s, before[0]);
    if Undisturbed(s, before[0]) && Undisturbed(Apply(s, before[0]), before[1]) {
      forall i | 0 <= i < 2 ensures Undisturbed(Exec(s, before[..i]), before[i]) {
        assert i == 0 || i == 1;
      }
    }
    if UndisturbedRun(s, before) {
      assert Undisturbed(Exec(s, before[..0]), before[0]) && Undisturbed(Exec(s, before[..1]), before[1]);
    }
  }

  // ---- Acquiring, waiting, releasing ----

  /** The state after an agent's calls: where it and the lockfile are; nothing else has changed. */
  ghost predicate Reached(s: State, t: State, a: Agent, file: Option<LockFile>, phase: Phase) {
    && t.file == file && t.phase(a) == phase && t.dead == s.dead && t.pid == s.pid
    && forall b: Agent {:trigger t.phase(b)} :: b != a ==> t.phase(b) == s.phase(b)
  }

  lemma OneCall(s: State, a: Agent, k: nat)
    ensures Exec(s, Calls(a, k + 1)) == Apply(Exec(s, Calls(a, k)), Act(a))
  {
    assert Calls(a, k + 1) == Calls(a, k) + [Act(a)];
    ExecMore(s, Calls(a, k), Act(a));
  }

  lemma NoCall(s: State, a: Agent)
    ensures Exec(s, Calls(a, 0)) == s
  {
  }

  /**
   * What an agent's calls do while nobody else acts: on a free name it has the lock after
   * two; on a live body it comes to wait after three and is back at the start after four,
   * and nothing has changed; on a stale body it has the lock after seven.
   */
  lemma TriesAlone(s: State, a: Agent)
    requires Alive(s, a) && s.phase(a) == Trying
    ensures s.file.None? ==> Reached(s, Exec(s, Calls(a, 2)), a, Some(LockFile(a, Whole)), Holding)
    ensures s.file.Some? && !Stale(s, s.file.value) ==>
      && Reached(s, Exec(s, Calls(a, 3)), a, s.file, Polling)
      && Reached(s, Exec(s, Calls(a, 4)), a, s.file, Trying)
    ensures s.file.Some? && Stale(s, s.file.value) ==>
      Exec(s, Calls(a, 7)).phase(a) == Holding && Exec(s, Calls(a, 7)).file == Some(LockFile(a, Whole))
  {
    hide *;
    if s.file.None? {
      TakesFreeLock(s, a);
    } else if Stale(s, s.file.value) {
      NoCall(s, a);
      assert [] + Calls(a, 7) == Calls(a, 7) && Exec(s, []) == s by { NothingRun(s, a); }
      StaleLockIsTakenOver(s, [], a);
    } else {
      WaitsAtLock(s, a);
    }
  }

  lemma NothingRun(s: State, a: Agent)
    ensures [] + Calls(a, 7) == Calls(a, 7) && Exec(s, []) == s
  {
  }

  lemma TakesFreeLock(s: State, a: Agent)
    requires Alive(s, a) && s.phase(a) == Trying && s.file.None?
    ensures Reached(s, Exec(s, Calls(a, 2)), a, Some(LockFile(a, Whole)), Holding)
  {
    NoCall(s, a);
    OneCall(s, a, 0);
    OneCall(s, a, 1);
    hide Exec;
  }

  lemma WaitsAtLock(s: State, a: Agent)
    requires Alive(s, a) && s.phase(a) == Trying && s.file.Some? && !Stale(s, s.file.value)
    ensures Reached(s, Exec(s, Calls(a, 3)), a, s.file, Polling)
    ensures Reached(s, Exec(s, Calls(a, 4)), a, s.file, Trying)
  {
    NoCall(s, a);
    OneCall(s, a, 0);
    OneCall(s, a, 1);
    OneCall(s, a, 2);
    OneCall(s, a, 3);
    hide Exec, Calls, Apply, Stale;
    var f := s.file.value;
    var t0, t1, t2, t3 := Exec(s, Calls(a, 0)), Exec(s, Calls(a, 1)), Exec(s, Calls(a, 2)), Exec(s, Calls(a, 3));
    assert Reached(s, t0, a, s.file, Trying);
    hide Reached;
    Waits(s, t0, a, f);
    Waits(s, t1, a, f);
    Waits(s, t2, a, f);
    Waits(s, t3, a, f);
  }

  /** One call of an agent that meets a live body. */
  lemma Waits(s: State, t: State, a: Agent, f: LockFile)
    requires Alive(s, a) && !Stale(s, f)
    ensures Reached(s, t, a, Some(f), Trying) ==> Reached(s, Apply(t, Act(a)), a, Some(f), Observing)
    ensures Reached(s, t, a, Some(f), Observing) ==> Reached(s, Apply(t, Act(a)), a, Some(f), Judging(f))
    ensures Reached(s, t, a, Some(f), Judging(f)) ==> Reached(s, Apply(t, Act(a)), a, Some(f), Polling)
    ensures Reached(s, t, a, Some(f), Polling) ==> Reached(s, Apply(t, Act(a)), a, Some(f), Trying)
  {
    hide LockBody.CutPid;
  }

  /** A body that has changed, or gone, since it was read is not removed; the agent waits, or tries again. */
  lemma ChangedIsLeft(s: State, a: Agent)
    requires Alive(s, a)
    ensures s.phase(a).Confirming? && s.file != Some(s.phase(a).observed) ==>
      Reached(s, Apply(s, Act(a)), a, s.file, Polling)
    ensures s.phase(a).Observing? && s.file.None? ==> Reached(s, Apply(s, Act(a)), a, None, Trying)
    ensures s.phase(a).Polling? ==> Reached(s, Apply(s, Act(a)), a, s.file, Trying)
  {
  }

  /** A body written after its file was taken away goes nowhere, and no part of it either. */
  lemma LateWriteIsLost(s: State, a: Agent, chars: nat)
    requires Alive(s, a) && s.phase(a) == Created && (s.file.None? || s.file.value.creator != a)
    ensures Reached(s, Apply(s, Act(a)), a, s.file, Holding)
    ensures Apply(s, Tear(a, chars)) == s
  {
  }

  /** Only a creator fails, only a waiter gives up, and neither touches a lockfile; the dead do nothing. */
  lemma WhoMayStop(s: State, a: Agent)
    ensures Alive(s, a) && s.phase(a) == Created ==> Reached(s, Apply(s, Fail(a)), a, s.file, Finished)
    ensures Alive(s, a) && s.phase(a) == Polling ==> Reached(s, Apply(s, GiveUp(a)), a, s.file, Finished)
    ensures s.phase(a) != Created ==> Apply(s, Fail(a)) == s
    ensures s.phase(a) != Polling ==> Apply(s, GiveUp(a)) == s
    ensures !Alive(s, a) ==> Apply(s, Act(a)) == Apply(s, Fail(a)) == Apply(s, GiveUp(a)) == s
  {
  }

  /** A release removes the agent's own whole body, and nothing but that. */
  lemma ReleaseRemovesOwn(s: State, a: Agent)
    requires Alive(s, a) && s.phase(a) == Holding
    ensures Reached(s, Exec(s, Calls(a, 3)), a, if s.file == Some(LockFile(a, Whole)) then None else s.file, Finished)
  {
    NoCall(s, a);
    OneCall(s, a, 0);
    OneCall(s, a, 1);
    OneCall(s, a, 2);
    hide Exec, Calls;
    var releasing := Exec(s, Calls(a, 1));
    assert Reached(s, releasing, a, s.file, Releasing);
    var last := Exec(s, Calls(a, 2));
    assert Reached(s, last, a, s.file, if s.file == Some(LockFile(a, Whole)) then Unlinking else Finished);
  }

  /** After a release another live agent, trying or waiting, has the lock by its own next calls. */
  lemma Handover(s: State, a: Agent, b: Agent)
    requires Alive(s, a) && s.phase(a) == Holding && s.file == Some(LockFile(a, Whole))
    requires Alive(s, b) && b != a && (s.phase(b) == Trying || s.phase(b) == Polling)
    ensures var released := Exec(s, Calls(a, 3));
      var taken := Exec(released, Calls(b, if s.phase(b) == Trying then 2 else 3));
      && Reached(released, taken, b, Some(LockFile(b, Whole)), Holding)
      && taken.phase(a) == Finished
  {
    ReleaseRemovesOwn(s, a);
    var released := Exec(s, Calls(a, 3));
    assert released.phase(b) == s.phase(b) && released.file.None?;
    NoCall(released, b);
    OneCall(released, b, 0);
    OneCall(released, b, 1);
    OneCall(released, b, 2);
    hide Exec, LockBody.CutPid;
  }
}
