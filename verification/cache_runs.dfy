/** What holds over whole runs of a cached action: exact and ordered reads, freezing after an error, stopping. */
module CacheRuns {
  import opened Wrappers
  import opened Query
  import opened Json
  import opened CacheProtocol

  /** Every step of the run is enabled when its turn comes. */
  ghost predicate Runs(s: State, steps: seq<Step>)
    decreases steps
  {
    steps == [] ||
    (s.history != [] && s.docs != [] && Enabled(s, steps[0]) && Runs(Apply(s, steps[0]), steps[1..]))
  }

  ghost function Final(s: State, steps: seq<Step>): State
    requires Runs(s, steps)
    decreases steps
  {
    if steps == [] then s else Final(Apply(s, steps[0]), steps[1..])
  }

  // ----- Reading -----

  /** What reader r holds shows nothing yet, or exactly the rows of one version of the database. */
  ghost predicate SeesSnapshot(s: State, r: nat) {
    && r < |s.readers| && s.readers[r] < |s.docs|
    && var doc := s.docs[s.readers[r]];
       && doc.version < |s.history|
       && doc.json.table == if s.readers[r] == 0 then None else Some(TableJson(s.history[doc.version]))
  }

  function VersionSeen(s: State, r: nat): nat
    requires r < |s.readers| && s.readers[r] < |s.docs|
  {
    s.docs[s.readers[r]].version
  }

  /** t comes after s: the database, the published objects and the readers only moved forward. */
  ghost predicate After(s: State, t: State) {
    && |s.docs| <= |t.docs| && |s.history| <= |t.history| && |s.readers| <= |t.readers|
    && (forall i :: 0 <= i < |s.history| ==> t.history[i] == s.history[i])
    && (forall i :: 0 <= i < |s.docs| ==>
          t.docs[i].version == s.docs[i].version && t.docs[i].json.table == s.docs[i].json.table)
    && (forall r :: 0 <= r < |s.readers| ==> s.readers[r] <= t.readers[r])
  }

  lemma PublishMovesForward(s: State, w: nat)
    requires s.docs != [] && Enabled(s, Work(w, true)) && Publishing(s.workers[w].pc)
    ensures After(s, PublishStep(s, w))
  {
  }

  lemma OthersMoveForward(s: State, step: Step)
    requires DocsExact(s) && Enabled(s, step) && !step.Work?
    ensures After(s, Apply(s, step))
  {
  }

  lemma SameMovesForward(s: State, t: State)
    requires SameDocs(s, t)
    ensures After(s, t)
  {
  }

  lemma StepMovesForward(s: State, step: Step)
    requires DocsExact(s) && Enabled(s, step)
    ensures After(s, Apply(s, step))
  {
    if !step.Work? {
      OthersMoveForward(s, step);
    } else if Publishing(s.workers[step.w].pc) && !Locking(s.workers[step.w].pc) {
      PublishMovesForward(s, step.w);
    } else {
      LockKeepsDocs(s, step.w);
      FetchKeepsDocs(s, step.w, step.ok);
      SameMovesForward(s, Apply(s, step));
    }
  }

  lemma {:induction false} RunKeepsInv(s: State, steps: seq<Step>)
    requires Inv(s) && Runs(s, steps)
    ensures Inv(Final(s, steps)) && After(s, Final(s, steps))
    decreases steps
  {
    if steps != [] {
      InvStep(s, steps[0]);
      StepMovesForward(s, steps[0]);
      RunKeepsInv(Apply(s, steps[0]), steps[1..]);
    }
  }

  /**
   * In every interleaving of workers, readers and writers, a reader sees the empty object or exactly one past version
   * of the rows, whatever round was interrupted when; and what it sees later is never an older version.
   */
  lemma CachedReads(start: State, before: seq<Step>, between: seq<Step>, r: nat)
    requires Init(start) && Runs(start, before) && Runs(Final(start, before), between)
    requires r < |Final(start, before).readers|
    ensures var first := Final(start, before);
            var later := Final(first, between);
            && SeesSnapshot(first, r) && SeesSnapshot(later, r)
            && VersionSeen(first, r) <= VersionSeen(later, r)
            && forall v :: 0 <= v < |first.history| ==> v < |later.history| && later.history[v] == first.history[v]
  {
    InitInv(start);
    RunKeepsInv(start, before);
    RunKeepsInv(Final(start, before), between);
  }

  /** What others write in a run. */
  function Written(steps: seq<Step>): seq<Table> {
    if steps == [] then []
    else (if steps[0].Write? then [steps[0].rows] else []) + Written(steps[1..])
  }

  /** The versions that readers can see are the rows of the beginning and all that is written, in this order. */
  lemma {:induction false} VersionsAreWrites(s: State, steps: seq<Step>)
    requires Runs(s, steps)
    ensures Final(s, steps).history == s.history + Written(steps)
    decreases steps
  {
    if steps != [] {
      var t, added := Apply(s, steps[0]), if steps[0].Write? then [steps[0].rows] else [];
      assert t.history == s.history + added by { HistoryStep(s, steps[0]); }
      VersionsAreWrites(t, steps[1..]);
      assert (s.history + added) + Written(steps[1..]) == s.history + (added + Written(steps[1..]));
    }
  }

  lemma HistoryStep(s: State, step: Step)
    requires s.history != [] && s.docs != [] && Enabled(s, step)
    ensures Apply(s, step).history == s.history + if step.Write? then [step.rows] else []
  {
    if step.Work? && !Locking(s.workers[step.w].pc) && Publishing(s.workers[step.w].pc) {
      PublishKeepsHistory(s, step.w);
    } else if step.Work? {
      LockKeepsHistory(s, step.w);
      FetchKeepsHistory(s, step.w, step.ok);
    }
  }

  lemma LockKeepsHistory(s: State, w: nat)
    requires Enabled(s, Work(w, true))
    ensures LockStep(s, w).history == s.history
  {
  }

  lemma FetchKeepsHistory(s: State, w: nat, ok: bool)
    requires s.history != [] && Enabled(s, Work(w, ok))
    ensures FetchStep(s, w, ok).history == s.history
  {
  }

  lemma PublishKeepsHistory(s: State, w: nat)
    requires s.docs != [] && Enabled(s, Work(w, true))
    ensures PublishStep(s, w).history == s.history
  {
  }

  /** The last call of set_state in a run. */
  function LastSet(steps: seq<Step>, before: bool): bool {
    if steps == [] then before
    else LastSet(steps[1..], if steps[0].SetState? then steps[0].on else before)
  }

  /** The cache runs exactly when it was last told to. */
  lemma {:induction false} RunningIsLastSet(s: State, steps: seq<Step>)
    requires Runs(s, steps)
    ensures Final(s, steps).running == LastSet(steps, s.running)
    decreases steps
  {
    if steps != [] {
      RunningStep(s, steps[0]);
      RunningIsLastSet(Apply(s, steps[0]), steps[1..]);
    }
  }

  lemma RunningStep(s: State, step: Step)
    requires s.history != [] && s.docs != [] && Enabled(s, step)
    ensures Apply(s, step).running == if step.SetState? then step.on else s.running
  {
    if step.Work? {
      if Locking(s.workers[step.w].pc) {
        assert Apply(s, step) == LockStep(s, step.w);
      } else {
        StaysInside(s, step.w, step.ok);
      }
    }
  }

  // ----- One undisturbed round -----

  /** The version a worker inside the mutex will publish when nothing fails. */
  function Target(s: State, w: nat): nat
    requires w < |s.workers| && s.history != []
  {
    var pc := s.workers[w].pc;
    if pc.Clear? || pc.Compose? || pc.Execute? then |s.history| - 1 else s.snapshot
  }

  /** The object a round publishes for a version. */
  function Published(s: State, version: nat): Doc
    requires version < |s.history|
  {
    Doc(JsonObject(Some(TableJson(s.history[version])), Some("OK."), Some("OK.")), version)
  }

  /** What is published once the worker inside the mutex is through with its round. */
  function Expected(s: State, w: nat): seq<Doc>
    requires DocsBounded(s) && w < |s.workers|
  {
    var pc := s.workers[w].pc;
    var last := |s.docs| - 1;
    match pc
    case Release => s.docs
    case SetMessage => s.docs[last := s.docs[last].(json := s.docs[last].json.(message := Some("OK.")))]
    case SetStatus =>
      s.docs[last := s.docs[last].(json := s.docs[last].json.(status := Some("OK."), message := Some("OK.")))]
    case _ => s.docs + [Published(s, Target(s, w))]
  }

  predicate DocsBounded(s: State) {
    s.history != [] && s.docs != [] && s.snapshot < |s.history|
  }

  /** A step of an undisturbed round keeps what is expected and comes nearer to the release. */
  ghost predicate OnCourse(s: State, w: nat, t: State)
    requires DocsBounded(s) && w < |s.workers|
  {
    && t.history == s.history && !t.error && t.holder == Some(w) && w < |t.workers| && DocsBounded(t)
    && Critical(t.workers[w].pc) && !t.workers[w].pc.Clear? && Expected(t, w) == Expected(s, w)
  }

  lemma QueryOnCourse(s: State, w: nat)
    requires DocsBounded(s) && !s.error && Enabled(s, Work(w, true)) && s.holder == Some(w)
    requires var pc := s.workers[w].pc; pc.Clear? || pc.Compose? || pc.Execute?
    ensures OnCourse(s, w, FetchStep(s, w, true))
  {
  }

  lemma RowsOnCourse(s: State, w: nat)
    requires DocsBounded(s) && !s.error && Enabled(s, Work(w, true)) && s.holder == Some(w)
    requires var pc := s.workers[w].pc; pc.Fetch? || pc.LastId? || pc.Condition?
    ensures OnCourse(s, w, FetchStep(s, w, true))
  {
  }

  lemma FetchOnCourse(s: State, w: nat)
    requires DocsBounded(s) && !s.error && Enabled(s, Work(w, true)) && s.holder == Some(w)
    requires Critical(s.workers[w].pc) && !s.workers[w].pc.Release? && !Publishing(s.workers[w].pc)
    ensures OnCourse(s, w, FetchStep(s, w, true))
  {
    var pc := s.workers[w].pc;
    if pc.Clear? || pc.Compose? || pc.Execute? { QueryOnCourse(s, w); } else { RowsOnCourse(s, w); }
  }

  lemma PublishOnCourse(s: State, w: nat)
    requires DocsBounded(s) && HolderConsistent(s) && !s.error && Enabled(s, Work(w, true)) && s.holder == Some(w)
    requires Publishing(s.workers[w].pc)
    ensures OnCourse(s, w, PublishStep(s, w))
  {
    if s.workers[w].pc.Publish? {
      assert RowsOfOneVersion(s, s.workers[w]);
    }
  }

  lemma {:induction false} FinishRound(s: State, w: nat) returns (steps: seq<Step>)
    requires Inv(s) && !s.error && s.holder == Some(w)
    ensures Runs(s, steps) && forall step :: step in steps ==> step == Work(w, true)
    ensures Final(s, steps).docs == Expected(s, w) && Final(s, steps).holder.None? && !Final(s, steps).error
    ensures Final(s, steps).history == s.history
    decreases Rank(s.workers[w].pc), RowsLeft(s)
  {
    var step := Work(w, true);
    var t := Apply(s, step);
    if s.workers[w].pc.Release? {
      steps := [step];
      assert Runs(t, []) && steps[1..] == [];
    } else {
      if Publishing(s.workers[w].pc) {
        PublishOnCourse(s, w);
        PublishNearer(s, w);
      } else {
        FetchOnCourse(s, w);
        FetchNearer(s, w, true);
      }
      InvStep(s, step);
      var rest := FinishRound(t, w);
      steps := [step] + rest;
      assert steps[1..] == rest;
    }
  }

  /** A worker that enters the mutex and is left alone publishes the current rows, whole and in order. */
  lemma RoundPublishes(s: State, w: nat) returns (steps: seq<Step>)
    requires Inv(s) && !s.error && s.holder == Some(w) && s.workers[w].pc.Clear?
    ensures Runs(s, steps) && forall step :: step in steps ==> step == Work(w, true)
    ensures Final(s, steps).docs == s.docs + [Published(s, |s.history| - 1)]
  {
    steps := FinishRound(s, w);
  }

  // ----- Freezing -----

  lemma ErrorStep(s: State, step: Step)
    requires MutexHeld(s) && s.history != [] && s.docs != [] && Enabled(s, step) && s.error
    ensures Apply(s, step).error && Apply(s, step).docs == s.docs
  {
    if step.Work? {
      assert !Refreshing(s.workers[step.w].pc);
    }
  }

  /** After the first failed round nothing is ever published again, however long the workers go on. */
  lemma {:induction false} FrozenAfterError(s: State, steps: seq<Step>)
    requires Inv(s) && s.error && Runs(s, steps)
    ensures Final(s, steps).error && Final(s, steps).docs == s.docs
    decreases steps
  {
    if steps != [] {
      InvStep(s, steps[0]);
      ErrorStep(s, steps[0]);
      FrozenAfterError(Apply(s, steps[0]), steps[1..]);
    }
  }

  /** The server is asked for something, or a row is still to be read. */
  predicate Asks(s: State, w: nat)
    requires w < |s.workers|
  {
    var me := s.workers[w];
    me.pc.Compose? || me.pc.Execute? || (me.pc.Fetch? && me.cursor < |s.query|) || me.pc.LastId? || me.pc.Condition?
  }

  /** Whatever the round asks for: when it fails, the error is set and nothing is ever published again. */
  lemma FailedRoundFreezes(s: State, w: nat, steps: seq<Step>)
    requires Inv(s) && Enabled(s, Work(w, false)) && Asks(s, w) && Runs(Apply(s, Work(w, false)), steps)
    ensures Final(Apply(s, Work(w, false)), steps).error && Final(Apply(s, Work(w, false)), steps).docs == s.docs
  {
    FailingStep(s, w);
    InvStep(s, Work(w, false));
    FrozenAfterError(Apply(s, Work(w, false)), steps);
  }

  lemma FailingStep(s: State, w: nat)
    requires s.history != [] && Enabled(s, Work(w, false)) && Asks(s, w)
    ensures var t := FetchStep(s, w, false); t.error && t.docs == s.docs
  {
  }

  // ----- Stopping -----

  /** A step after set_state(false): nobody turns the cache on again or starts a worker. */
  predicate Quiet(step: Step) {
    !step.Spawn? && step != SetState(true)
  }

  /** Rounds the worker may still begin once the cache is stopped: one, if it had already passed the test. */
  function RoundsLeft(me: Worker): nat {
    if me.pc.Acquire? then 1 else 0
  }

  /** How often the worker enters the mutex in a run. */
  ghost function Entries(s: State, steps: seq<Step>, w: nat): nat
    requires Runs(s, steps)
    decreases steps
  {
    if steps == [] then 0
    else
      (if steps[0].Work? && steps[0].w == w && w < |s.workers| && s.workers[w].pc.Acquire? then 1 else 0)
      + Entries(Apply(s, steps[0]), steps[1..], w)
  }

  lemma {:induction false} RoundsAreEntries(s: State, steps: seq<Step>, w: nat)
    requires Runs(s, steps) && w < |s.workers|
    ensures w < |Final(s, steps).workers|
    ensures Final(s, steps).workers[w].rounds == s.workers[w].rounds + Entries(s, steps, w)
    decreases steps
  {
    if steps != [] {
      RoundsStep(s, steps[0], w);
      RoundsAreEntries(Apply(s, steps[0]), steps[1..], w);
    }
  }

  lemma RoundsStep(s: State, step: Step, w: nat)
    requires s.history != [] && s.docs != [] && Enabled(s, step) && w < |s.workers|
    ensures w < |Apply(s, step).workers|
    ensures Apply(s, step).workers[w].rounds == s.workers[w].rounds +
              if step.Work? && step.w == w && s.workers[w].pc.Acquire? then 1 else 0
  {
    if step.Work? {
      if Locking(s.workers[step.w].pc) {
        assert Apply(s, step) == LockStep(s, step.w);
      } else {
        StaysInside(s, step.w, step.ok);
      }
    }
  }

  lemma {:induction false} RoundsAfterStop(s: State, steps: seq<Step>, w: nat)
    requires Runs(s, steps) && !s.running && (forall step :: step in steps ==> Quiet(step)) && w < |s.workers|
    ensures var t := Final(s, steps);
            && !t.running && |t.workers| == |s.workers|
            && t.workers[w].rounds + RoundsLeft(t.workers[w]) <= s.workers[w].rounds + RoundsLeft(s.workers[w])
    decreases steps
  {
    if steps != [] {
      assert steps[0] in steps;
      StoppedStep(s, steps[0], w);
      RoundsAfterStop(Apply(s, steps[0]), steps[1..], w);
    }
  }

  /** After set_state(false) a worker enters the mutex at most once more, and only if it had already passed the test. */
  lemma AtMostOneMoreRound(s: State, steps: seq<Step>, w: nat)
    requires s.history != [] && s.docs != [] && w < |s.workers|
    requires Runs(Apply(s, SetState(false)), steps) && forall step :: step in steps ==> Quiet(step)
    ensures Entries(Apply(s, SetState(false)), steps, w) <= if s.workers[w].pc.Acquire? then 1 else 0
  {
    RoundsAfterStop(Apply(s, SetState(false)), steps, w);
    RoundsAreEntries(Apply(s, SetState(false)), steps, w);
  }

  lemma StoppedStep(s: State, step: Step, w: nat)
    requires s.history != [] && s.docs != [] && Enabled(s, step) && !s.running && Quiet(step) && w < |s.workers|
    ensures var t := Apply(s, step);
            && !t.running && |t.workers| == |s.workers|
            && t.workers[w].rounds + RoundsLeft(t.workers[w]) <= s.workers[w].rounds + RoundsLeft(s.workers[w])
  {
    if step.Work? {
      var pc := s.workers[step.w].pc;
      if Locking(pc) {
        assert Apply(s, step) == LockStep(s, step.w);
      } else {
        StaysInside(s, step.w, step.ok);
      }
    }
  }

  /** Inside the mutex no round begins and the state flag is left alone. */
  ghost predicate SameRound(s: State, w: nat, t: State)
    requires w < |s.workers|
  {
    && t.running == s.running && |t.workers| == |s.workers| && t.workers == s.workers[w := t.workers[w]]
    && t.workers[w].rounds == s.workers[w].rounds && !t.workers[w].pc.Acquire?
  }

  lemma FetchSameRound(s: State, w: nat, ok: bool)
    requires s.history != [] && Enabled(s, Work(w, ok)) && Critical(s.workers[w].pc)
    ensures SameRound(s, w, FetchStep(s, w, ok))
  {
  }

  lemma PublishSameRound(s: State, w: nat)
    requires s.docs != [] && Enabled(s, Work(w, true)) && Publishing(s.workers[w].pc)
    ensures SameRound(s, w, PublishStep(s, w))
  {
  }

  lemma StaysInside(s: State, w: nat, ok: bool)
    requires s.history != [] && s.docs != [] && Enabled(s, Work(w, ok)) && !Locking(s.workers[w].pc)
    ensures SameRound(s, w, WorkerStep(s, w, ok))
  {
    if Publishing(s.workers[w].pc) {
      PublishSameRound(s, w);
    } else {
      FetchSameRound(s, w, ok);
    }
  }

  /** Steps a worker is away from its end, not counting rows. */
  function Rank(pc: Pc): nat {
    match pc
    case Acquire => 14
    case Clear => 13
    case Compose => 12
    case Execute => 11
    case Fetch => 10
    case LastId => 9
    case Condition => 8
    case Build => 7
    case Publish => 6
    case SetStatus => 5
    case SetMessage => 4
    case Release => 3
    case Asleep => 2
    case Test => 1
    case Ended => 0
  }

  function Ranks(workers: seq<Worker>): nat {
    if workers == [] then 0 else Ranks(workers[..|workers| - 1]) + Rank(workers[|workers| - 1].pc)
  }

  lemma {:induction false} RanksUpdate(workers: seq<Worker>, w: nat, me: Worker)
    requires w < |workers|
    ensures Ranks(workers[w := me]) == Ranks(workers) - Rank(workers[w].pc) + Rank(me.pc)
  {
    var last := |workers| - 1;
    if w == last {
      assert workers[w := me][..last] == workers[..last];
    } else {
      assert workers[w := me][..last] == workers[..last][w := me];
      RanksUpdate(workers[..last], w, me);
    }
  }

  /** Rows the holder of the mutex still has to fetch or to build. */
  function RowsLeft(s: State): nat {
    if s.holder.Some? && s.holder.value < |s.workers| then
      var me := s.workers[s.holder.value];
      if me.pc.Fetch? && me.cursor <= |s.query| then |s.query| - me.cursor
      else if me.pc.Build? && |me.built| <= |s.results| then |s.results| - |me.built|
      else 0
    else 0
  }

  ghost predicate AllEnded(s: State) {
    forall w :: 0 <= w < |s.workers| ==> s.workers[w].pc.Ended?
  }

  ghost predicate Nearer(s: State, w: nat, t: State)
    requires w < |s.workers| == |t.workers|
  {
    || Rank(t.workers[w].pc) < Rank(s.workers[w].pc)
    || (Rank(t.workers[w].pc) == Rank(s.workers[w].pc) && RowsLeft(t) < RowsLeft(s))
  }

  lemma LockNearer(s: State, w: nat)
    requires MutexHeld(s) && !s.running && Enabled(s, Work(w, true)) && Locking(s.workers[w].pc)
    ensures var t := LockStep(s, w); t.workers == s.workers[w := t.workers[w]] && Nearer(s, w, t)
  {
  }

  lemma FetchNearer(s: State, w: nat, ok: bool)
    requires MutexHeld(s) && HolderConsistent(s) && s.history != [] && Enabled(s, Work(w, ok))
    requires Critical(s.workers[w].pc) && !s.workers[w].pc.Release? && !Publishing(s.workers[w].pc)
    ensures var t := FetchStep(s, w, ok); t.workers == s.workers[w := t.workers[w]] && Nearer(s, w, t)
  {
  }

  lemma PublishNearer(s: State, w: nat)
    requires MutexHeld(s) && HolderConsistent(s) && s.docs != [] && Enabled(s, Work(w, true))
    requires Publishing(s.workers[w].pc)
    ensures var t := PublishStep(s, w); t.workers == s.workers[w := t.workers[w]] && Nearer(s, w, t)
  {
  }

  /** Once the cache is stopped, every step of a worker brings the end nearer. */
  lemma WorkDecreases(s: State, w: nat, ok: bool)
    requires Inv(s) && !s.running && Enabled(s, Work(w, ok))
    ensures var t := WorkerStep(s, w, ok);
            Ranks(t.workers) < Ranks(s.workers) || (Ranks(t.workers) == Ranks(s.workers) && RowsLeft(t) < RowsLeft(s))
  {
    var t := WorkerStep(s, w, ok);
    var pc := s.workers[w].pc;
    if Locking(pc) {
      LockNearer(s, w);
    } else if Publishing(pc) {
      PublishNearer(s, w);
    } else {
      FetchNearer(s, w, ok);
    }
    RanksUpdate(s.workers, w, t.workers[w]);
  }

  lemma OthersKeepMeasure(s: State, step: Step)
    requires s.history != [] && s.docs != [] && Enabled(s, step) && !step.Work? && Quiet(step)
    ensures Ranks(Apply(s, step).workers) == Ranks(s.workers) && RowsLeft(Apply(s, step)) == RowsLeft(s)
  {
  }

  /** No deadlock: while a worker has not ended, some worker can take a step. */
  lemma SomeWorkerCanStep(s: State) returns (w: nat)
    requires Inv(s) && !AllEnded(s)
    ensures Enabled(s, Work(w, true))
  {
    if s.holder.Some? {
      w := s.holder.value;
    } else {
      w :| 0 <= w < |s.workers| && !s.workers[w].pc.Ended?;
    }
  }

  ghost predicate StepAt(states: nat -> State, steps: nat -> Step, n: nat) {
    && states(n).history != [] && states(n).docs != [] && Enabled(states(n), steps(n)) && Quiet(steps(n))
    && states(n + 1) == Apply(states(n), steps(n))
  }

  ghost predicate TurnAfter(states: nat -> State, steps: nat -> Step, n: nat) {
    exists m: nat :: n <= m && (steps(m).Work? || AllEnded(states(m)))
  }

  /**
   * An infinite run that begins with set_state(false); the cache stays stopped, and workers that can go on get their
   * turn again and again.
   */
  ghost predicate StoppedTrace(states: nat -> State, steps: nat -> Step) {
    && Inv(states(0)) && steps(0) == SetState(false)
    && (forall n: nat :: StepAt(states, steps, n))
    && (forall n: nat :: TurnAfter(states, steps, n))
  }

  lemma QuietStep(s: State, step: Step)
    requires s.history != [] && s.docs != [] && (!s.running || step == SetState(false))
    requires Enabled(s, step) && Quiet(step)
    ensures !Apply(s, step).running
  {
    if step.Work? && !Locking(s.workers[step.w].pc) {
      StaysInside(s, step.w, step.ok);
    }
  }

  lemma {:induction false} TraceStopped(states: nat -> State, steps: nat -> Step, n: nat)
    requires StoppedTrace(states, steps) && n > 0
    ensures !states(n).running
  {
    assert StepAt(states, steps, n - 1);
    if n > 1 {
      TraceStopped(states, steps, n - 1);
    }
    QuietStep(states(n - 1), steps(n - 1));
  }

  lemma {:induction false} TraceInv(states: nat -> State, steps: nat -> Step, n: nat)
    requires StoppedTrace(states, steps)
    ensures Inv(states(n))
  {
    if n > 0 {
      TraceInv(states, steps, n - 1);
      assert StepAt(states, steps, n - 1);
      InvStep(states(n - 1), steps(n - 1));
    }
  }

  /** The next step of a worker from n on, with the measure it finds. */
  lemma {:induction false} NextWork(states: nat -> State, steps: nat -> Step, n: nat, m: nat) returns (k: nat)
    requires StoppedTrace(states, steps) && n <= m && (steps(m).Work? || AllEnded(states(m)))
    ensures n <= k && (steps(k).Work? || AllEnded(states(k)))
    ensures Ranks(states(k).workers) == Ranks(states(n).workers) && RowsLeft(states(k)) == RowsLeft(states(n))
    decreases m - n
  {
    if steps(n).Work? || AllEnded(states(n)) {
      k := n;
    } else {
      assert StepAt(states, steps, n);
      OthersKeepMeasure(states(n), steps(n));
      k := NextWork(states, steps, n + 1, m);
    }
  }

  lemma WorkTurn(states: nat -> State, steps: nat -> Step, k: nat)
    requires StoppedTrace(states, steps) && k > 0 && steps(k).Work?
    ensures Ranks(states(k + 1).workers) < Ranks(states(k).workers)
            || (&& Ranks(states(k + 1).workers) == Ranks(states(k).workers)
                && RowsLeft(states(k + 1)) < RowsLeft(states(k)))
  {
    TraceInv(states, steps, k);
    TraceStopped(states, steps, k);
    assert StepAt(states, steps, k);
    WorkDecreases(states(k), steps(k).w, steps(k).ok);
  }

  lemma {:induction false} WorkersEnd(states: nat -> State, steps: nat -> Step, n: nat)
    requires StoppedTrace(states, steps) && n > 0
    ensures exists m: nat :: n <= m && AllEnded(states(m))
    decreases Ranks(states(n).workers), RowsLeft(states(n))
  {
    assert TurnAfter(states, steps, n);
    var m: nat :| n <= m && (steps(m).Work? || AllEnded(states(m)));
    var k := NextWork(states, steps, n, m);
    if !AllEnded(states(k)) {
      WorkTurn(states, steps, k);
      WorkersEnd(states, steps, k + 1);
    }
  }

  /** After set_state(false) all workers end, in every fair interleaving and however many rows there are. */
  lemma StoppedWorkersEnd(states: nat -> State, steps: nat -> Step)
    requires StoppedTrace(states, steps)
    ensures exists m: nat :: AllEnded(states(m))
  {
    WorkersEnd(states, steps, 1);
  }
}
