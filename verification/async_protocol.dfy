/**
 * An action whose statement runs on a detached thread, and the destructor that waits for it
 * (src/functions/action.cpp: ExecuteAsyncQuery_, ExecuteQuery_, ~Action).
 */
module AsyncProtocol {
  import opened Wrappers

  /** Where a detached thread is in ExecuteQuery_; every step but the last one still uses the action. */
  datatype Thread = Check | Execute | SetFlag | Notify | Done(succeeded: bool)

  /** The owner uses the action, is inside its own ExecuteQuery_, spins in the destructor, or has left it. */
  datatype Owner = Live | Executing | Waiting | Gone

  datatype State = State(async: bool, finished: bool, error: bool, threads: seq<Thread>, owner: Owner)

  /**
   * `Launch` is a call of ExecuteAsyncQuery_ (`created`: the thread could be started), `Run` one step of a thread
   * (`ok`: the server's answer), `Begin` and `End` the owner's own call of ExecuteQuery_, by itself or inside Work_,
   * `Destroy` the call of the destructor and `Spin` one look at the flag.
   */
  datatype Step = Launch(created: bool) | Run(t: nat, ok: bool) | Begin | End(ok: bool) | Destroy | Spin

  const NEW_ACTION := State(false, false, false, [], Live)

  predicate Enabled(s: State, step: Step) {
    match step
    case Launch(_) => s.owner.Live?
    case Run(t, _) => t < |s.threads| && !s.threads[t].Done?
    case Begin => s.owner.Live?
    case End(_) => s.owner.Executing?
    case Destroy => s.owner.Live?
    case Spin => s.owner.Waiting?
  }

  function RunThread(s: State, t: nat, ok: bool): State
    requires t < |s.threads|
  {
    match s.threads[t]
    case Check => s.(threads := s.threads[t := if s.error then Done(false) else Execute])
    case Execute => s.(threads := s.threads[t := if ok then SetFlag else Notify])
    case SetFlag => s.(threads := s.threads[t := Done(true)], finished := s.finished || s.async)
    case Notify => s.(threads := s.threads[t := Done(false)], error := true)
    case Done(_) => s
  }

  function Apply(s: State, step: Step): State
    requires Enabled(s, step)
  {
    match step
    case Launch(created) =>
      if s.error then s
      else if created then s.(async := true, finished := false, threads := s.threads + [Check])
      else s.(async := true, finished := false, error := true)
    case Run(t, ok) => RunThread(s, t, ok)
    case Begin => if s.error then s else s.(owner := Executing)
    case End(ok) =>
      if ok then s.(owner := Live, finished := s.finished || s.async) else s.(owner := Live, error := true)
    case Destroy => s.(owner := if s.async then Waiting else Gone)
    case Spin => if s.finished then s.(owner := Gone) else s
  }

  ghost predicate Runs(s: State, steps: seq<Step>)
    decreases steps
  {
    steps == [] || (Enabled(s, steps[0]) && Runs(Apply(s, steps[0]), steps[1..]))
  }

  ghost function Final(s: State, steps: seq<Step>): State
    requires Runs(s, steps)
    decreases steps
  {
    if steps == [] then s else Final(Apply(s, steps[0]), steps[1..])
  }

  lemma {:induction false} RunsCompose(s: State, first: seq<Step>, second: seq<Step>)
    requires Runs(s, first) && Runs(Final(s, first), second)
    ensures Runs(s, first + second) && Final(s, first + second) == Final(Final(s, first), second)
    decreases first
  {
    if first == [] {
      assert first + second == second;
    } else {
      RunsCompose(Apply(s, first[0]), first[1..], second);
      assert (first + second)[1..] == first[1..] + second;
    }
  }

  lemma Extend(start: State, steps: seq<Step>, step: Step)
    requires Runs(start, steps) && Enabled(Final(start, steps), step)
    ensures Runs(start, steps + [step]) && Final(start, steps + [step]) == Apply(Final(start, steps), step)
  {
    assert Runs(Apply(Final(start, steps), step), []) && [step][1..] == [];
    RunsCompose(start, steps, [step]);
  }

  // ----- Safety -----

  /** Once the destructor has returned, no thread is left that could still touch the action. */
  ghost predicate Safe(s: State) {
    s.owner.Gone? ==> forall t :: 0 <= t < |s.threads| ==> s.threads[t].Done?
  }

  /** The owner itself executes a statement with success after a thread was started. */
  ghost predicate OwnerSets(s: State, steps: seq<Step>)
    requires Runs(s, steps)
    decreases steps
  {
    steps != [] && ((s.threads != [] && steps[0] == End(true)) || OwnerSets(Apply(s, steps[0]), steps[1..]))
  }

  lemma {:induction false} OwnerSetsCompose(s: State, first: seq<Step>, second: seq<Step>)
    requires Runs(s, first) && Runs(Final(s, first), second) && Runs(s, first + second)
    ensures OwnerSets(s, first + second) <==> OwnerSets(s, first) || OwnerSets(Final(s, first), second)
    decreases first
  {
    if first == [] {
      assert first + second == second;
    } else {
      assert (first + second)[1..] == first[1..] + second;
      OwnerSetsCompose(Apply(s, first[0]), first[1..], second);
    }
  }

  lemma ExtendSets(start: State, steps: seq<Step>, step: Step)
    requires Runs(start, steps) && Enabled(Final(start, steps), step)
    ensures Runs(start, steps + [step]) && Final(start, steps + [step]) == Apply(Final(start, steps), step)
    ensures OwnerSets(start, steps + [step]) <==>
              OwnerSets(start, steps) || (Final(start, steps).threads != [] && step == End(true))
  {
    Extend(start, steps, step);
    var s := Final(start, steps);
    assert Runs(Apply(s, step), []) && [step][1..] == [] && Runs(s, [step]);
    OwnerSetsCompose(start, steps, [step]);
    assert OwnerSets(s, [step]) <==> s.threads != [] && step == End(true);
  }

  /** With at most one thread, the flag is only ever set by its last access, and the destructor waits for it. */
  ghost predicate OneThread(s: State) {
    && |s.threads| <= 1 && Safe(s)
    && (s.threads != [] ==> s.async)
    && (s.threads == [] && s.async ==> s.error && !s.owner.Executing?)
    && (s.finished ==> s.threads == [Done(true)])
    && (s.owner.Gone? && s.async ==> s.finished)
  }

  lemma OneThreadStep(s: State, step: Step)
    requires OneThread(s) && Enabled(s, step) && |Apply(s, step).threads| <= 1
    requires !(s.threads != [] && step == End(true))
    ensures OneThread(Apply(s, step))
  {
  }

  lemma {:induction false} ThreadsOnlyGrow(s: State, steps: seq<Step>)
    requires Runs(s, steps)
    ensures |s.threads| <= |Final(s, steps).threads|
    decreases steps
  {
    if steps != [] {
      ThreadsOnlyGrow(Apply(s, steps[0]), steps[1..]);
    }
  }

  lemma {:induction false} RunWithOneThread(s: State, steps: seq<Step>)
    requires OneThread(s) && Runs(s, steps) && |Final(s, steps).threads| <= 1 && !OwnerSets(s, steps)
    ensures OneThread(Final(s, steps))
    decreases steps
  {
    if steps != [] {
      ThreadsOnlyGrow(Apply(s, steps[0]), steps[1..]);
      OneThreadStep(s, steps[0]);
      RunWithOneThread(Apply(s, steps[0]), steps[1..]);
    }
  }

  /** Without threads there is nothing to be safe from. */
  lemma NoThreads(s: State)
    requires s.threads == []
    ensures Safe(s)
  {
  }

  /** A run that starts n threads. */
  lemma {:induction false} LaunchMany(n: nat) returns (steps: seq<Step>)
    ensures Runs(NEW_ACTION, steps) && !OwnerSets(NEW_ACTION, steps)
    ensures Final(NEW_ACTION, steps) == State(n > 0, false, false, seq(n, i => Check), Live)
  {
    if n == 0 {
      steps := [];
      assert seq(n, i => Check) == [];
    } else {
      var before := LaunchMany(n - 1);
      assert seq(n - 1, i => Check) + [Check] == seq(n, i => Check);
      steps := before + [Launch(true)];
      ExtendSets(NEW_ACTION, before, Launch(true));
    }
  }

  /** From two threads on, the first one to finish lets the destructor return while another still uses the action. */
  lemma UnsafeWithMoreThreads(n: nat) returns (steps: seq<Step>)
    requires n >= 2
    ensures Runs(NEW_ACTION, steps) && |Final(NEW_ACTION, steps).threads| == n && !Safe(Final(NEW_ACTION, steps))
    ensures !OwnerSets(NEW_ACTION, steps)
  {
    steps := LaunchMany(n);
    var tail := [Run(0, true), Run(0, true), Run(0, true), Destroy, Spin];
    for i := 0 to 5
      invariant Runs(NEW_ACTION, steps) && !OwnerSets(NEW_ACTION, steps)
      invariant |Final(NEW_ACTION, steps).threads| == n && Final(NEW_ACTION, steps).threads[1] == Check
      invariant var f := Final(NEW_ACTION, steps);
                && f.async && !f.error
                && f.threads[0] == [Check, Execute, SetFlag, Done(true), Done(true), Done(true)][i]
                && f.finished == (i >= 3)
                && f.owner == (if i <= 3 then Live else if i == 4 then Waiting else Gone)
    {
      ExtendSets(NEW_ACTION, steps, tail[i]);
      steps := steps + [tail[i]];
    }
  }

  /** A statement of the owner sets the flag for the thread, which has not even begun. */
  lemma UnsafeWithOwner(n: nat) returns (steps: seq<Step>)
    requires n >= 1
    ensures Runs(NEW_ACTION, steps) && |Final(NEW_ACTION, steps).threads| == n && !Safe(Final(NEW_ACTION, steps))
    ensures OwnerSets(NEW_ACTION, steps)
  {
    steps := LaunchMany(n);
    var tail := [Begin, End(true), Destroy, Spin];
    for i := 0 to 4
      invariant Runs(NEW_ACTION, steps) && (OwnerSets(NEW_ACTION, steps) <==> i >= 2)
      invariant |Final(NEW_ACTION, steps).threads| == n && Final(NEW_ACTION, steps).threads[0] == Check
      invariant var f := Final(NEW_ACTION, steps);
                && f.async && !f.error && f.finished == (i >= 2)
                && f.owner == [Live, Executing, Live, Waiting, Gone][i]
    {
      ExtendSets(NEW_ACTION, steps, tail[i]);
      steps := steps + [tail[i]];
    }
  }

  /** All runs are safe that start n threads, and after that have or have not a successful statement of the owner. */
  ghost predicate SafeWith(n: nat, ownerSets: bool) {
    forall steps ::
      Runs(NEW_ACTION, steps) && |Final(NEW_ACTION, steps).threads| == n && OwnerSets(NEW_ACTION, steps) == ownerSets
      ==> Safe(Final(NEW_ACTION, steps))
  }

  /**
   * The destructor outlives every access in all interleavings exactly when no thread is ever started, or a single one
   * and the owner has no success with a statement of its own after that.
   */
  lemma SafeIffAtMostOneThread(n: nat, ownerSets: bool)
    ensures SafeWith(n, ownerSets) <==> n == 0 || (n == 1 && !ownerSets)
  {
    if n == 0 {
      forall steps | Runs(NEW_ACTION, steps) && |Final(NEW_ACTION, steps).threads| == n
        ensures Safe(Final(NEW_ACTION, steps))
      {
        NoThreads(Final(NEW_ACTION, steps));
      }
    } else if ownerSets {
      var steps := UnsafeWithOwner(n);
    } else if n == 1 {
      forall steps | Runs(NEW_ACTION, steps) && |Final(NEW_ACTION, steps).threads| == n && !OwnerSets(NEW_ACTION, steps)
        ensures Safe(Final(NEW_ACTION, steps))
      {
        RunWithOneThread(NEW_ACTION, steps);
      }
    } else {
      var steps := UnsafeWithMoreThreads(n);
    }
  }

  /** The step does not cut in on a thread: launches and successes of the owner only come when all threads are done. */
  predicate InTurn(s: State, step: Step) {
    (step == Launch(true) && !s.error) || step == End(true) ==> AllDone(s)
  }

  ghost predicate OneAtATime(s: State, steps: seq<Step>)
    requires Runs(s, steps)
    decreases steps
  {
    steps == [] || (InTurn(s, steps[0]) && OneAtATime(Apply(s, steps[0]), steps[1..]))
  }

  /** Only the last thread may be at work, and the flag is not set while it is. */
  ghost predicate LastAtWork(s: State) {
    && (forall t :: 0 <= t < |s.threads| - 1 ==> s.threads[t].Done?)
    && (s.finished ==> AllDone(s))
    && (s.threads != [] ==> s.async)
    && (s.owner.Gone? && s.async ==> s.finished)
  }

  lemma InTurnStep(s: State, step: Step)
    requires LastAtWork(s) && Enabled(s, step) && InTurn(s, step)
    ensures LastAtWork(Apply(s, step))
  {
  }

  /** Any number of threads is safe when every launch and every success of the owner waits for the threads before. */
  lemma {:induction false} OneAtATimeIsSafe(s: State, steps: seq<Step>)
    requires LastAtWork(s) && Runs(s, steps) && OneAtATime(s, steps)
    ensures LastAtWork(Final(s, steps)) && Safe(Final(s, steps))
    decreases steps
  {
    if steps != [] {
      InTurnStep(s, steps[0]);
      OneAtATimeIsSafe(Apply(s, steps[0]), steps[1..]);
    }
  }

  // ----- Whether the destructor can return -----

  /** The thread may still come to set the flag. */
  predicate MaySet(thread: Thread, error: bool) {
    thread.Execute? || thread.SetFlag? || (thread.Check? && !error)
  }

  ghost predicate NoneMaySet(s: State) {
    forall t :: 0 <= t < |s.threads| ==> !MaySet(s.threads[t], s.error)
  }

  /**
   * Nobody is left to set the flag: no thread may, and the owner is in the destructor, or in error, so that it neither
   * executes nor launches anything any more.
   */
  ghost predicate Doomed(s: State) {
    && s.async && !s.finished && NoneMaySet(s)
    && (s.owner.Waiting? || (s.owner.Live? && s.error))
  }

  /** Some continuation leaves the destructor. */
  ghost predicate CanReturn(s: State) {
    exists steps :: Runs(s, steps) && Final(s, steps).owner.Gone?
  }

  lemma DoomedStep(s: State, step: Step)
    requires Doomed(s) && Enabled(s, step)
    ensures Doomed(Apply(s, step))
  {
    if step.Run? {
      var t := Apply(s, step);
      assert forall k :: 0 <= k < |s.threads| && k != step.t ==> t.threads[k] == s.threads[k];
    }
  }

  lemma {:induction false} DoomedForever(s: State, steps: seq<Step>)
    requires Doomed(s) && Runs(s, steps)
    ensures Doomed(Final(s, steps))
    decreases steps
  {
    if steps != [] {
      DoomedStep(s, steps[0]);
      DoomedForever(Apply(s, steps[0]), steps[1..]);
    }
  }

  lemma CanReturnBefore(s: State, step: Step)
    requires Enabled(s, step) && CanReturn(Apply(s, step))
    ensures CanReturn(s)
  {
    var steps :| Runs(Apply(s, step), steps) && Final(Apply(s, step), steps).owner.Gone?;
    assert ([step] + steps)[1..] == steps;
    assert Runs(s, [step] + steps) && Final(s, [step] + steps).owner.Gone?;
  }

  lemma GoneReturns(s: State)
    requires s.owner.Gone?
    ensures CanReturn(s)
  {
    assert Runs(s, []);
  }

  /** With the flag set, or nothing to wait for, the destructor returns at once when it is called. */
  lemma SetReturns(s: State)
    requires s.finished || (!s.async && !s.owner.Waiting?)
    ensures CanReturn(s)
    decreases match s.owner case Executing => 2 case Live => 1 case _ => 0
  {
    match s.owner {
      case Gone => GoneReturns(s);
      case Waiting =>
        GoneReturns(Apply(s, Spin));
        CanReturnBefore(s, Spin);
      case Live =>
        var t := Apply(s, Destroy);
        if t.owner.Gone? { GoneReturns(t); } else { SetReturns(t); }
        CanReturnBefore(s, Destroy);
      case Executing =>
        SetReturns(Apply(s, End(true)));
        CanReturnBefore(s, End(true));
    }
  }

  /** A thread that may set the flag needs at most three steps. */
  lemma ThreadReturns(s: State, t: nat)
    requires s.async && t < |s.threads| && MaySet(s.threads[t], s.error)
    ensures CanReturn(s)
    decreases Left(s.threads[t])
  {
    var next := Apply(s, Run(t, true));
    if s.threads[t].SetFlag? { SetReturns(next); } else { ThreadReturns(next, t); }
    CanReturnBefore(s, Run(t, true));
  }

  lemma UndoomedReturns(s: State)
    requires !Doomed(s) && (s.owner.Waiting? ==> s.async)
    ensures CanReturn(s)
  {
    if s.finished || !s.async {
      SetReturns(s);
    } else if t :| 0 <= t < |s.threads| && MaySet(s.threads[t], s.error) {
      ThreadReturns(s, t);
    } else if s.owner.Gone? {
      GoneReturns(s);
    } else {
      if s.owner.Live? {
        SetReturns(Apply(Apply(s, Begin), End(true)));
        CanReturnBefore(Apply(s, Begin), End(true));
        CanReturnBefore(s, Begin);
      } else {
        SetReturns(Apply(s, End(true)));
        CanReturnBefore(s, End(true));
      }
    }
  }

  lemma {:induction false} WaitsForThreads(s: State, steps: seq<Step>)
    requires Runs(s, steps) && (s.owner.Waiting? ==> s.async)
    ensures Final(s, steps).owner.Waiting? ==> Final(s, steps).async
    decreases steps
  {
    if steps != [] {
      WaitsForThreads(Apply(s, steps[0]), steps[1..]);
    }
  }

  /**
   * After any run, with any number of threads and calls, some continuation leaves the destructor exactly when somebody
   * is left to set the flag.
   */
  lemma DestructorCanReturn(steps: seq<Step>)
    requires Runs(NEW_ACTION, steps)
    ensures CanReturn(Final(NEW_ACTION, steps)) <==> !Doomed(Final(NEW_ACTION, steps))
  {
    var s := Final(NEW_ACTION, steps);
    WaitsForThreads(NEW_ACTION, steps);
    if Doomed(s) {
      forall after | Runs(s, after)
        ensures !Final(s, after).owner.Gone?
      {
        DoomedForever(s, after);
      }
    } else {
      UndoomedReturns(s);
    }
  }

  /** The server's answer to the statement of thread t, if it has been given in the run. */
  ghost function AnswerTo(s: State, steps: seq<Step>, t: nat): Option<bool>
    requires Runs(s, steps)
    decreases steps
  {
    if steps == [] then None
    else
      var later := AnswerTo(Apply(s, steps[0]), steps[1..], t);
      if later.Some? then later
      else if steps[0].Run? && steps[0].t == t && s.threads[t].Execute? then Some(steps[0].ok)
      else None
  }

  /** A thread shows the answer to its statement; one that has found the error set has not asked. */
  predicate Shows(thread: Thread, answer: Option<bool>) {
    match thread
    case Check => answer.None?
    case Execute => answer.None?
    case SetFlag => answer == Some(true)
    case Notify => answer == Some(false)
    case Done(succeeded) => if succeeded then answer == Some(true) else answer != Some(true)
  }

  lemma {:induction false} ThreadsShow(s: State, steps: seq<Step>, t: nat, before: Option<bool>)
    requires Runs(s, steps) && t < |Final(s, steps).threads|
    requires if t < |s.threads| then Shows(s.threads[t], before) else before.None?
    ensures var later := AnswerTo(s, steps, t);
            Shows(Final(s, steps).threads[t], if later.Some? then later else before)
    decreases steps
  {
    if steps != [] {
      var step := steps[0];
      var asked := step.Run? && step.t == t && s.threads[t].Execute?;
      ThreadsShow(Apply(s, step), steps[1..], t, if asked then Some(step.ok) else before);
    }
  }

  /** The step is a launch that fails, the end of a failing statement of the owner, or a thread's report of its own. */
  predicate Reports(s: State, step: Step) {
    || step in {Launch(false), End(false)}
    || (step.Run? && step.t < |s.threads| && s.threads[step.t].Notify?)
  }

  ghost predicate SomeReport(s: State, steps: seq<Step>)
    requires Runs(s, steps)
    decreases steps
  {
    steps != [] && (Reports(s, steps[0]) || SomeReport(Apply(s, steps[0]), steps[1..]))
  }

  /** The error is set exactly when something has failed, and it stays. */
  lemma {:induction false} ErrorIffReported(s: State, steps: seq<Step>)
    requires Runs(s, steps)
    ensures Final(s, steps).error <==> s.error || SomeReport(s, steps)
    decreases steps
  {
    if steps != [] {
      ErrorIffReported(Apply(s, steps[0]), steps[1..]);
    }
  }

  /** A thread that has failed has left the error behind. */
  ghost predicate ErrorLeft(s: State) {
    forall t :: 0 <= t < |s.threads| && s.threads[t] == Done(false) ==> s.error
  }

  lemma {:induction false} FailedThreadLeavesError(s: State, steps: seq<Step>)
    requires Runs(s, steps) && ErrorLeft(s)
    ensures ErrorLeft(Final(s, steps))
    decreases steps
  {
    if steps != [] {
      ErrorLeftStep(s, steps[0]);
      FailedThreadLeavesError(Apply(s, steps[0]), steps[1..]);
    }
  }

  lemma ErrorLeftStep(s: State, step: Step)
    requires Enabled(s, step) && ErrorLeft(s)
    ensures ErrorLeft(Apply(s, step))
  {
    if !s.error {
      var t := Apply(s, step);
      assert forall k :: 0 <= k < |s.threads| && !(step.Run? && step.t == k) ==> t.threads[k] == s.threads[k];
    }
  }

  /** With the error set, the calls of the owner but the destructor change nothing. */
  lemma ErrorStopsOwner(s: State, step: Step)
    requires s.error && Enabled(s, step) && (step.Launch? || step.Begin?)
    ensures Apply(s, step) == s
  {
  }

  /**
   * The thread has failed, or the launch has not started one, and the owner has nothing else to do; a thread that still
   * has to report its failure is included when the destructor has been called.
   */
  ghost predicate Failed(s: State) {
    || (s.owner in {Live, Waiting} && (s.threads == [Done(false)] || (s.threads == [] && s.async)))
    || (s.owner.Waiting? && s.threads == [Notify])
  }

  /** With at most one thread, a failed execution or a thread that could not be started is never waited out. */
  lemma FailedNeverDestroyed(before: seq<Step>, after: seq<Step>)
    requires Runs(NEW_ACTION, before) && !OwnerSets(NEW_ACTION, before) && Failed(Final(NEW_ACTION, before))
    requires Runs(Final(NEW_ACTION, before), after)
    ensures !Final(Final(NEW_ACTION, before), after).owner.Gone?
  {
    RunWithOneThread(NEW_ACTION, before);
    FailedThreadLeavesError(NEW_ACTION, before);
    var s := Final(NEW_ACTION, before);
    if s.threads == [Done(false)] {
      assert s.threads[0] == Done(false);
    }
    DoomedForever(s, after);
  }

  /** The runs of the steps in order. */
  lemma RunThese(steps: seq<Step>, states: seq<State>)
    requires |states| == |steps| + 1 && states[0] == NEW_ACTION
    requires forall i :: 0 <= i < |steps| ==>
               Enabled(states[i], steps[i]) && states[i + 1] == Apply(states[i], steps[i])
    ensures Runs(NEW_ACTION, steps) && Final(NEW_ACTION, steps) == states[|steps|]
  {
    for i := 0 to |steps|
      invariant Runs(NEW_ACTION, steps[..i]) && Final(NEW_ACTION, steps[..i]) == states[i]
    {
      Extend(NEW_ACTION, steps[..i], steps[i]);
      assert steps[..i + 1] == steps[..i] + [steps[i]];
    }
    assert steps[..|steps|] == steps;
  }

  /**
   * The statement of the only thread succeeds and sets the flag; a second launch resets it and then cannot start its
   * thread. The destructor never returns.
   */
  lemma RelaunchHangs()
    ensures var steps := [Launch(true), Run(0, true), Run(0, true), Run(0, true), Launch(false), Destroy];
            Runs(NEW_ACTION, steps) && !CanReturn(Final(NEW_ACTION, steps))
  {
    var steps := [Launch(true), Run(0, true), Run(0, true), Run(0, true), Launch(false), Destroy];
    var states := [
      NEW_ACTION, State(true, false, false, [Check], Live), State(true, false, false, [Execute], Live),
      State(true, false, false, [SetFlag], Live), State(true, true, false, [Done(true)], Live),
      State(true, false, true, [Done(true)], Live), State(true, false, true, [Done(true)], Waiting)];
    RunThese(steps, states);
    DestructorCanReturn(steps);
  }

  /** The statement fails: the action is in error, and the destructor never returns. */
  lemma FailingStatement()
    ensures var steps := [Launch(true), Run(0, true), Run(0, false), Run(0, true)];
            && Runs(NEW_ACTION, steps)
            && Final(NEW_ACTION, steps) == State(true, false, true, [Done(false)], Live)
            && !CanReturn(Final(NEW_ACTION, steps))
  {
    var steps := [Launch(true), Run(0, true), Run(0, false), Run(0, true)];
    RunThese(steps, [
      NEW_ACTION, State(true, false, false, [Check], Live), State(true, false, false, [Execute], Live),
      State(true, false, false, [Notify], Live), State(true, false, true, [Done(false)], Live)]);
    DestructorCanReturn(steps);
  }

  // ----- Whether it does return -----

  /** Accesses a thread has before it, if its statement succeeds. */
  function Left(thread: Thread): nat {
    match thread
    case Check => 3
    case Execute => 2
    case SetFlag => 1
    case Notify => 1
    case Done(_) => 0
  }

  function LeftInAll(threads: seq<Thread>): nat {
    if threads == [] then 0 else Left(threads[0]) + LeftInAll(threads[1..])
  }

  lemma {:induction false} LeftUpdate(threads: seq<Thread>, t: nat, thread: Thread)
    requires t < |threads|
    ensures LeftInAll(threads[t := thread]) + Left(threads[t]) == LeftInAll(threads) + Left(thread)
  {
    if t > 0 {
      assert threads[t := thread][1..] == threads[1..][t - 1 := thread];
      LeftUpdate(threads[1..], t - 1, thread);
    } else {
      assert threads[t := thread][1..] == threads[1..];
    }
  }

  predicate AllDone(s: State) {
    forall t :: 0 <= t < |s.threads| ==> s.threads[t].Done?
  }

  /** The destructor was called. */
  predicate Destroyed(s: State) {
    s.owner.Waiting? || s.owner.Gone?
  }

  /** An infinite run; it stands still once the destructor has returned. */
  ghost predicate StepAt(states: nat -> State, steps: nat -> Step, n: nat) {
    if states(n).owner.Gone? then states(n + 1) == states(n)
    else Enabled(states(n), steps(n)) && states(n + 1) == Apply(states(n), steps(n))
  }

  /** Some thread gets its turn while one is left. */
  ghost predicate ThreadTurn(states: nat -> State, steps: nat -> Step, n: nat) {
    exists m: nat :: n <= m && (steps(m).Run? || AllDone(states(m)) || states(m).owner.Gone?)
  }

  ghost predicate OwnerTurn(states: nat -> State, steps: nat -> Step, n: nat) {
    exists m: nat :: n <= m && (steps(m).Spin? || states(m).owner.Gone?)
  }

  /** An infinite run in which the destructor is called, and the threads and the destructor get their turns. */
  ghost predicate FairTrace(states: nat -> State, steps: nat -> Step, destroyed: nat) {
    && states(0) == NEW_ACTION && Destroyed(states(destroyed))
    && (forall n: nat :: StepAt(states, steps, n))
    && (forall n: nat :: ThreadTurn(states, steps, n))
    && (forall n: nat :: OwnerTurn(states, steps, n))
  }

  /** What a step of a trace keeps once the destructor was called. */
  ghost predicate Forward(s: State, t: State) {
    && Destroyed(t) && t.async == s.async
    && LeftInAll(t.threads) <= LeftInAll(s.threads)
    && (s.finished ==> t.finished)
    && (s.owner.Gone? ==> t.owner.Gone?)
    && (AllDone(s) ==> AllDone(t))
  }

  lemma DestroyedStep(s: State, step: Step)
    requires Destroyed(s) && !s.owner.Gone? && Enabled(s, step)
    ensures Forward(s, Apply(s, step))
    ensures step.Run? ==> LeftInAll(Apply(s, step).threads) < LeftInAll(s.threads)
  {
    if step.Run? {
      LeftUpdate(s.threads, step.t, Apply(s, step).threads[step.t]);
    }
  }

  lemma {:induction false} TraceForward(states: nat -> State, steps: nat -> Step, destroyed: nat, n: nat, m: nat)
    requires FairTrace(states, steps, destroyed) && n <= m && Destroyed(states(n))
    ensures Forward(states(n), states(m))
    decreases m - n
  {
    if n < m {
      assert StepAt(states, steps, n);
      if !states(n).owner.Gone? {
        DestroyedStep(states(n), steps(n));
      }
      TraceForward(states, steps, destroyed, n + 1, m);
    }
  }

  lemma {:induction false} TraceWaits(states: nat -> State, steps: nat -> Step, destroyed: nat, n: nat)
    requires FairTrace(states, steps, destroyed)
    ensures states(n).owner.Waiting? ==> states(n).async
  {
    if n > 0 {
      TraceWaits(states, steps, destroyed, n - 1);
      assert StepAt(states, steps, n - 1);
    }
  }

  lemma {:induction false} TraceDoomed(states: nat -> State, steps: nat -> Step, destroyed: nat, n: nat, m: nat)
    requires FairTrace(states, steps, destroyed) && n <= m && Doomed(states(n))
    ensures Doomed(states(m))
    decreases m - n
  {
    if n < m {
      assert StepAt(states, steps, n);
      DoomedStep(states(n), steps(n));
      TraceDoomed(states, steps, destroyed, n + 1, m);
    }
  }

  /** After the call of the destructor all threads come to their ends. */
  lemma {:induction false} ThreadsEnd(states: nat -> State, steps: nat -> Step, destroyed: nat, n: nat) returns (k: nat)
    requires FairTrace(states, steps, destroyed) && Destroyed(states(n))
    ensures n <= k && Destroyed(states(k)) && (AllDone(states(k)) || states(k).owner.Gone?)
    decreases LeftInAll(states(n).threads)
  {
    assert ThreadTurn(states, steps, n);
    var m: nat :| n <= m && (steps(m).Run? || AllDone(states(m)) || states(m).owner.Gone?);
    TraceForward(states, steps, destroyed, n, m);
    if AllDone(states(m)) || states(m).owner.Gone? {
      k := m;
    } else {
      assert StepAt(states, steps, m);
      DestroyedStep(states(m), steps(m));
      k := ThreadsEnd(states, steps, destroyed, m + 1);
    }
  }

  /** With the flag set the destructor sees it. */
  lemma FlagIsSeen(states: nat -> State, steps: nat -> Step, destroyed: nat, k: nat)
    requires FairTrace(states, steps, destroyed) && Destroyed(states(k)) && states(k).finished
    ensures exists n: nat :: states(n).owner.Gone?
  {
    assert OwnerTurn(states, steps, k);
    var m: nat :| k <= m && (steps(m).Spin? || states(m).owner.Gone?);
    TraceForward(states, steps, destroyed, k, m);
    assert StepAt(states, steps, m);
    assert states(m).owner.Gone? || states(m + 1).owner.Gone?;
  }

  /**
   * In every fair interleaving with a call of the destructor, with any launches, statements and answers, it returns
   * exactly when there never is a moment at which nobody is left to set the flag.
   */
  lemma ReturnsIffNeverDoomed(states: nat -> State, steps: nat -> Step, destroyed: nat)
    requires FairTrace(states, steps, destroyed)
    ensures (exists n: nat :: states(n).owner.Gone?) <==> (forall n: nat :: !Doomed(states(n)))
  {
    if n: nat :| states(n).owner.Gone? {
      forall m: nat
        ensures !Doomed(states(m))
      {
        if m <= n {
          if Doomed(states(m)) { TraceDoomed(states, steps, destroyed, m, n); }
        } else {
          TraceForward(states, steps, destroyed, n, m);
        }
      }
    } else {
      var k := ThreadsEnd(states, steps, destroyed, destroyed);
      TraceWaits(states, steps, destroyed, k);
      if states(k).finished {
        FlagIsSeen(states, steps, destroyed, k);
      } else {
        assert Doomed(states(k));
      }
    }
  }

  /** The step is a launch or an execution that fails. */
  predicate Fails(s: State, step: Step) {
    match step
    case Launch(created) => !created
    case Run(t, ok) => t < |s.threads| && s.threads[t].Execute? && !ok
    case End(ok) => !ok
    case _ => false
  }

  /** As long as nothing has failed, a thread may set the flag when it is missing. */
  ghost predicate Succeeding(s: State) {
    && !s.error
    && (forall t :: 0 <= t < |s.threads| ==> s.threads[t] !in {Notify, Done(false)})
    && (s.async && !s.finished ==> !NoneMaySet(s))
  }

  lemma SucceedingStep(s: State, step: Step)
    requires Succeeding(s) && Enabled(s, step) && !Fails(s, step)
    ensures Succeeding(Apply(s, step))
  {
    var t := Apply(s, step);
    if t.async && !t.finished {
      if step.Launch? {
        assert MaySet(t.threads[|s.threads|], t.error);
      } else {
        var k :| 0 <= k < |s.threads| && MaySet(s.threads[k], s.error);
        assert MaySet(t.threads[k], t.error);
      }
    }
  }

  lemma {:induction false} TraceSucceeds(states: nat -> State, steps: nat -> Step, destroyed: nat, n: nat)
    requires FairTrace(states, steps, destroyed)
    requires forall k: nat :: !Fails(states(k), steps(k))
    ensures Succeeding(states(n))
  {
    if n > 0 {
      TraceSucceeds(states, steps, destroyed, n - 1);
      assert StepAt(states, steps, n - 1);
      if !states(n - 1).owner.Gone? {
        SucceedingStep(states(n - 1), steps(n - 1));
      }
    }
  }

  /** When all threads are started and all statements succeed, the destructor returns in every fair interleaving. */
  lemma SuccessIsDestroyed(states: nat -> State, steps: nat -> Step, destroyed: nat)
    requires FairTrace(states, steps, destroyed)
    requires forall k: nat :: !Fails(states(k), steps(k))
    ensures exists n: nat :: states(n).owner.Gone?
  {
    forall n: nat
      ensures !Doomed(states(n))
    {
      TraceSucceeds(states, steps, destroyed, n);
    }
    ReturnsIffNeverDoomed(states, steps, destroyed);
  }
}
