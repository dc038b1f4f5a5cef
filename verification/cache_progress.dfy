/** A cached action that is left running and meets no error goes on publishing what is in the database. */
module CacheProgress {
  import opened Wrappers
  import opened CacheProtocol
  import opened CacheRuns

  predicate TurnOf(step: Step, w: nat) {
    step.Work? && step.w == w
  }

  /** The worker can take a step; what the server answers does not matter for that. */
  predicate CanWork(s: State, w: nat) {
    Enabled(s, Work(w, true))
  }

  ghost predicate RunAt(states: nat -> State, steps: nat -> Step, n: nat) {
    && states(n).running && !states(n).error
    && states(n).history != [] && states(n).docs != [] && Enabled(states(n), steps(n))
    && states(n + 1) == Apply(states(n), steps(n))
  }

  /** The worker gets its turn again and again, unless again and again it cannot take a step. */
  ghost predicate TurnAgain(states: nat -> State, steps: nat -> Step, w: nat, n: nat) {
    exists m: nat :: n <= m && (TurnOf(steps(m), w) || !CanWork(states(m), w))
  }

  /**
   * An infinite run in which the cache stays running and without an error, and every worker gets its turns; new workers
   * may be started, and others may read and write, at any time.
   */
  ghost predicate RunningTrace(states: nat -> State, steps: nat -> Step) {
    && Inv(states(0))
    && (forall n: nat :: RunAt(states, steps, n))
    && (forall w: nat, n: nat :: TurnAgain(states, steps, w, n))
  }

  ghost predicate AtWork(s: State, w: nat) {
    w < |s.workers| && !s.workers[w].pc.Ended?
  }

  lemma {:induction false} TraceInv(states: nat -> State, steps: nat -> Step, n: nat)
    requires RunningTrace(states, steps)
    ensures Inv(states(n))
  {
    if n > 0 {
      TraceInv(states, steps, n - 1);
      assert RunAt(states, steps, n - 1);
      InvStep(states(n - 1), steps(n - 1));
    }
  }

  lemma AfterAgain(s: State, t: State, u: State)
    requires After(s, t) && After(t, u)
    ensures After(s, u)
  {
  }

  lemma {:induction false} TraceAfter(states: nat -> State, steps: nat -> Step, n: nat, m: nat)
    requires RunningTrace(states, steps) && n <= m
    ensures After(states(n), states(m))
    decreases m - n
  {
    if n < m {
      TraceInv(states, steps, n);
      assert RunAt(states, steps, n);
      StepMovesForward(states(n), steps(n));
      TraceAfter(states, steps, n + 1, m);
      AfterAgain(states(n), states(n + 1), states(m));
    }
  }

  // ----- Workers of a running cache do not end -----

  lemma StaysAtWork(s: State, step: Step, w: nat)
    requires s.history != [] && s.docs != [] && s.running && Enabled(s, step) && AtWork(s, w)
    ensures AtWork(Apply(s, step), w)
  {
    if step.Work? && !Locking(s.workers[step.w].pc) {
      StaysInside(s, step.w, step.ok);
      if Publishing(s.workers[step.w].pc) {
        PublishStaysInside(s, step.w);
      } else {
        FetchStaysInside(s, step.w, step.ok);
      }
    }
  }

  lemma FetchStaysInside(s: State, w: nat, ok: bool)
    requires s.history != [] && Enabled(s, Work(w, ok)) && Critical(s.workers[w].pc) && !s.workers[w].pc.Release?
    ensures AtWork(FetchStep(s, w, ok), w)
  {
  }

  lemma PublishStaysInside(s: State, w: nat)
    requires s.docs != [] && Enabled(s, Work(w, true)) && Publishing(s.workers[w].pc)
    ensures AtWork(PublishStep(s, w), w)
  {
  }

  lemma {:induction false} TraceAtWork(states: nat -> State, steps: nat -> Step, w: nat, n: nat, m: nat)
    requires RunningTrace(states, steps) && n <= m && AtWork(states(n), w)
    ensures AtWork(states(m), w)
    decreases m - n
  {
    if n < m {
      assert RunAt(states, steps, n);
      StaysAtWork(states(n), steps(n), w);
      TraceAtWork(states, steps, w, n + 1, m);
    }
  }

  // ----- The round of the worker inside the mutex -----

  /** Nothing that concerns the round of the holder has changed. */
  ghost predicate Undisturbed(s: State, t: State, h: nat)
    requires h < |s.workers|
  {
    && t.holder == s.holder && h < |t.workers| && t.workers[h] == s.workers[h]
    && t.query == s.query && t.snapshot == s.snapshot && t.results == s.results && t.docs == s.docs
    && |s.history| <= |t.history|
  }

  lemma OthersDoNotDisturb(s: State, step: Step, h: nat)
    requires Inv(s) && s.holder == Some(h) && Enabled(s, step) && !TurnOf(step, h)
    ensures Undisturbed(s, Apply(s, step), h)
  {
    if step.Work? {
      assert !Critical(s.workers[step.w].pc);
      assert Apply(s, step) == LockStep(s, step.w);
    }
  }

  /** The round of the holder has published, or will publish, version v of the rows or a later one. */
  ghost predicate Carries(s: State, h: nat, v: nat) {
    && s.holder == Some(h) && h < |s.workers| && s.docs != [] && v < |s.history|
    && var pc := s.workers[h].pc;
       && Critical(pc)
       && (pc.Fetch? || pc.LastId? || pc.Condition? || pc.Build? || pc.Publish? ==> v <= s.snapshot)
       && (pc.SetStatus? || pc.SetMessage? || pc.Release? ==> v <= s.docs[|s.docs| - 1].version)
  }

  /** The step of the holder brings its round nearer to the release. */
  lemma FetchCarries(s: State, h: nat, ok: bool, v: nat)
    requires Carries(s, h, v) && Enabled(s, Work(h, ok))
    requires !Locking(s.workers[h].pc) && !Publishing(s.workers[h].pc) && !FetchStep(s, h, ok).error
    ensures Carries(FetchStep(s, h, ok), h, v)
  {
  }

  lemma PublishCarries(s: State, h: nat, v: nat)
    requires Carries(s, h, v) && Enabled(s, Work(h, true)) && Publishing(s.workers[h].pc)
    ensures Carries(PublishStep(s, h), h, v)
  {
  }

  lemma CarriesOn(s: State, h: nat, ok: bool, v: nat)
    requires Inv(s) && Carries(s, h, v) && Enabled(s, Work(h, ok)) && !s.workers[h].pc.Release?
    requires !WorkerStep(s, h, ok).error
    ensures var t := WorkerStep(s, h, ok); Carries(t, h, v) && |t.workers| == |s.workers| && Nearer(s, h, t)
  {
    if Publishing(s.workers[h].pc) {
      PublishCarries(s, h, v);
      PublishNearer(s, h);
    } else {
      FetchCarries(s, h, ok, v);
      FetchNearer(s, h, ok);
    }
  }

  /** The next turn of the holder; until then its round is as it was. */
  lemma {:induction false} HolderTurn(states: nat -> State, steps: nat -> Step, h: nat, v: nat, n: nat, m: nat)
    returns (k: nat)
    requires RunningTrace(states, steps) && Carries(states(n), h, v)
    requires n <= m && (TurnOf(steps(m), h) || !CanWork(states(m), h))
    ensures n <= k && TurnOf(steps(k), h) && Carries(states(k), h, v)
    ensures states(k).workers[h].pc == states(n).workers[h].pc && RowsLeft(states(k)) == RowsLeft(states(n))
    decreases m - n
  {
    assert CanWork(states(n), h);
    if TurnOf(steps(n), h) {
      k := n;
    } else {
      TraceInv(states, steps, n);
      assert RunAt(states, steps, n);
      OthersDoNotDisturb(states(n), steps(n), h);
      k := HolderTurn(states, steps, h, v, n + 1, m);
    }
  }

  /** Version v of the rows or a later one has been published. */
  ghost predicate PublishedBy(s: State, v: nat) {
    s.docs != [] && v <= s.docs[|s.docs| - 1].version
  }

  /** At its turn the holder leaves the mutex, or comes nearer to that. */
  lemma HolderStep(states: nat -> State, steps: nat -> Step, h: nat, v: nat, n: nat)
    requires RunningTrace(states, steps) && Carries(states(n), h, v) && TurnOf(steps(n), h)
    ensures if states(n).workers[h].pc.Release? then states(n + 1).holder.None? && PublishedBy(states(n + 1), v)
            else && Carries(states(n + 1), h, v) && |states(n + 1).workers| == |states(n).workers|
                 && Nearer(states(n), h, states(n + 1))
  {
    TraceInv(states, steps, n);
    assert RunAt(states, steps, n) && RunAt(states, steps, n + 1);
    if !states(n).workers[h].pc.Release? {
      CarriesOn(states(n), h, steps(n).ok, v);
    }
  }

  /** The holder comes to the end of its round, and has then published version v or a later one. */
  lemma {:induction false} RoundEnds(states: nat -> State, steps: nat -> Step, h: nat, v: nat, n: nat) returns (k: nat)
    requires RunningTrace(states, steps) && Carries(states(n), h, v)
    ensures n <= k && states(k).holder.None? && PublishedBy(states(k), v)
    decreases Rank(states(n).workers[h].pc), RowsLeft(states(n))
  {
    assert TurnAgain(states, steps, h, n);
    var m: nat :| n <= m && (TurnOf(steps(m), h) || !CanWork(states(m), h));
    var turn := HolderTurn(states, steps, h, v, n, m);
    HolderStep(states, steps, h, v, turn);
    if states(turn).workers[h].pc.Release? {
      k := turn + 1;
    } else {
      k := RoundEnds(states, steps, h, v, turn + 1);
    }
  }

  // ----- Entering the mutex -----

  /** Steps a worker outside the mutex is away from asking for it. */
  function ToAcquire(pc: Pc): nat {
    match pc
    case Asleep => 2
    case Test => 1
    case _ => 0
  }

  /** A step while the mutex is free: somebody enters, or the worker comes nearer, or nothing happens to it. */
  lemma FreeStep(s: State, step: Step, w: nat)
    requires Inv(s) && s.running && s.holder.None? && Enabled(s, step) && AtWork(s, w)
    ensures var t := Apply(s, step);
            || (t.holder.Some? && Carries(t, t.holder.value, |s.history| - 1))
            || (&& t.holder.None? && AtWork(t, w)
                && if TurnOf(step, w) then ToAcquire(t.workers[w].pc) < ToAcquire(s.workers[w].pc)
                   else t.workers[w].pc == s.workers[w].pc)
  {
    if step.Work? {
      assert !Critical(s.workers[step.w].pc);
      assert Apply(s, step) == LockStep(s, step.w);
    }
  }

  /** While a worker is there to ask for it, a free mutex is taken. */
  lemma {:induction false} SomeoneEnters(states: nat -> State, steps: nat -> Step, w: nat, v: nat, n: nat, m: nat)
    returns (k: nat, h: nat)
    requires RunningTrace(states, steps) && states(n).holder.None? && AtWork(states(n), w) && v < |states(n).history|
    requires n <= m && (TurnOf(steps(m), w) || !CanWork(states(m), w))
    ensures n <= k && Carries(states(k), h, v)
    decreases ToAcquire(states(n).workers[w].pc), m - n
  {
    TraceInv(states, steps, n);
    assert RunAt(states, steps, n) && CanWork(states(n), w);
    FreeStep(states(n), steps(n), w);
    StepMovesForward(states(n), steps(n));
    if states(n + 1).holder.Some? {
      k, h := n + 1, states(n + 1).holder.value;
    } else if TurnOf(steps(n), w) {
      assert TurnAgain(states, steps, w, n + 1);
      var next: nat :| n + 1 <= next && (TurnOf(steps(next), w) || !CanWork(states(next), w));
      k, h := SomeoneEnters(states, steps, w, v, n + 1, next);
    } else {
      k, h := SomeoneEnters(states, steps, w, v, n + 1, m);
    }
  }

  /** From any moment on, the mutex is free again. */
  lemma MutexIsFreed(states: nat -> State, steps: nat -> Step, n: nat) returns (k: nat)
    requires RunningTrace(states, steps)
    ensures n <= k && states(k).holder.None?
  {
    TraceInv(states, steps, n);
    if states(n).holder.Some? {
      k := RoundEnds(states, steps, states(n).holder.value, 0, n);
    } else {
      k := n;
    }
  }

  /**
   * In every fair run of a cache that stays running without an error and has a worker, whatever is in the database at
   * any moment is published later, unless something newer is.
   */
  lemma RunningCacheRefreshes(states: nat -> State, steps: nat -> Step, w: nat, n: nat) returns (k: nat)
    requires RunningTrace(states, steps) && AtWork(states(n), w)
    ensures n <= k && states(k).docs != []
    ensures states(k).docs[|states(k).docs| - 1].version >= |states(n).history| - 1
  {
    var free := MutexIsFreed(states, steps, n);
    TraceAtWork(states, steps, w, n, free);
    TraceAfter(states, steps, n, free);
    assert RunAt(states, steps, n);
    assert TurnAgain(states, steps, w, free);
    var m: nat :| free <= m && (TurnOf(steps(m), w) || !CanWork(states(m), w));
    var v := |states(n).history| - 1;
    var entered, h := SomeoneEnters(states, steps, w, v, free, m);
    k := RoundEnds(states, steps, h, v, entered);
  }

  /** A worker that is started is enough. */
  lemma StartedWorkerRefreshes(states: nat -> State, steps: nat -> Step, n: nat) returns (k: nat)
    requires RunningTrace(states, steps) && steps(n) == Spawn
    ensures n <= k && states(k).docs != []
    ensures states(k).docs[|states(k).docs| - 1].version >= |states(n).history| - 1
  {
    assert RunAt(states, steps, n);
    k := RunningCacheRefreshes(states, steps, |states(n).workers|, n + 1);
  }

  /** The step is the look of reader r at the cache; the reader may be a new one. */
  predicate LooksAs(s: State, step: Step, r: nat) {
    step == Take(r) || (step.Join? && r == |s.readers|)
  }

  /** Who looks at the cache after that sees the rows of that moment, or newer ones. */
  lemma ReadersCatchUp(states: nat -> State, steps: nat -> Step, w: nat, n: nat) returns (k: nat)
    requires RunningTrace(states, steps) && AtWork(states(n), w)
    ensures n <= k
    ensures forall m: nat, r: nat :: k <= m && LooksAs(states(m), steps(m), r) ==>
              && r < |states(m + 1).readers| && states(m + 1).readers[r] < |states(m + 1).docs|
              && VersionSeen(states(m + 1), r) >= |states(n).history| - 1
  {
    k := RunningCacheRefreshes(states, steps, w, n);
    forall m: nat, r: nat | k <= m && LooksAs(states(m), steps(m), r)
      ensures && r < |states(m + 1).readers| && states(m + 1).readers[r] < |states(m + 1).docs|
              && VersionSeen(states(m + 1), r) >= |states(n).history| - 1
    {
      TraceInv(states, steps, m);
      assert RunAt(states, steps, m);
      TraceAfter(states, steps, k, m);
      var last := |states(k).docs| - 1;
      assert states(m).docs[last].version == states(k).docs[last].version;
    }
  }
}
