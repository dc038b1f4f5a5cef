/**
 * A cached action under concurrency (src/functions/cache_action.cpp, and Action::Work_ in src/functions/action.cpp):
 * any number of worker threads refresh the published JSON while readers take it and others write to the database.
 */
module CacheProtocol {
  import opened Wrappers
  import opened Query
  import opened Json

  /** Where a worker is in WorkInBackground_; from Clear to Release it holds the mutex. */
  datatype Pc =
    | Test | Acquire | Clear | Compose | Execute | Fetch | LastId | Condition | Build | Publish
    | SetStatus | SetMessage | Release | Asleep | Ended

  /** The local state of a worker: rows fetched so far, the JSON rows built so far, and the rounds it has started. */
  datatype Worker = Worker(pc: Pc, cursor: nat, built: seq<map<string, JsonValue>>, rounds: nat)

  /** A published object, with the version of the database whose rows it was built from. */
  datatype Doc = Doc(json: JsonObject, version: nat)

  /**
   * `history` holds every version of the queried rows, the current one last; `docs` every object that json_result_
   * ever pointed at, the current one last; `readers` the index of the object each reader took.
   */
  datatype State = State(
    history: seq<Table>, running: bool, holder: Option<nat>, error: bool, query: Table, snapshot: nat, results: Table,
    docs: seq<Doc>, workers: seq<Worker>, readers: seq<nat>)

  /** One atomic step of a worker (`ok` is the answer of the server), a writer, a stopper, a starter or a reader. */
  datatype Step = Work(w: nat, ok: bool) | Write(rows: Table) | SetState(on: bool) | Spawn | Join | Take(r: nat)

  predicate Critical(pc: Pc) {
    !(pc.Test? || pc.Acquire? || pc.Asleep? || pc.Ended?)
  }

  /** Between a successful compose and the release, where an error would have ended the round. */
  predicate Refreshing(pc: Pc) {
    Critical(pc) && !pc.Clear? && !pc.Compose? && !pc.Release?
  }

  predicate Enabled(s: State, step: Step) {
    match step
    case Work(w, _) =>
      && w < |s.workers| && !s.workers[w].pc.Ended?
      && (s.workers[w].pc.Acquire? ==> s.holder.None?)
    case Take(r) => r < |s.readers| && s.docs != []
    case _ => true
  }

  function Goto(s: State, w: nat, pc: Pc): State
    requires w < |s.workers|
  {
    s.(workers := s.workers[w := s.workers[w].(pc := pc)])
  }

  function Fail(s: State, w: nat): State
    requires w < |s.workers|
  {
    Goto(s, w, Release).(error := true)
  }

  /** Testing the state, taking and releasing the mutex, sleeping. */
  function LockStep(s: State, w: nat): State
    requires Enabled(s, Work(w, true))
  {
    var me := s.workers[w];
    match me.pc
    case Test => Goto(s, w, if s.running then Acquire else Ended)
    case Acquire => s.(holder := Some(w), workers := s.workers[w := me.(pc := Clear, rounds := me.rounds + 1)])
    case Release => Goto(s, w, Asleep).(holder := None)
    case Asleep => Goto(s, w, Test)
    case _ => s
  }

  /** Clearing the results, sending the query and reading its rows one by one. */
  function FetchStep(s: State, w: nat, ok: bool): State
    requires Enabled(s, Work(w, ok)) && s.history != []
  {
    var me := s.workers[w];
    match me.pc
    case Clear => Goto(s, w, Compose).(results := [])
    case Compose => if s.error || !ok then Fail(s, w) else Goto(s, w, Execute)
    case Execute =>
      if !ok then Fail(s, w)
      else s.(query := s.history[|s.history| - 1], snapshot := |s.history| - 1,
              workers := s.workers[w := me.(pc := Fetch, cursor := 0)])
    case Fetch =>
      if me.cursor >= |s.query| then Goto(s, w, LastId)
      else if !ok then Fail(s, w)
      else s.(results := s.results + [s.query[me.cursor]], workers := s.workers[w := me.(cursor := me.cursor + 1)])
    case LastId => if ok then Goto(s, w, Condition) else Fail(s, w)
    case Condition => if ok then s.(workers := s.workers[w := me.(pc := Build, built := [])]) else Fail(s, w)
    case _ => s
  }

  /** Building the JSON row by row, publishing it, and then setting its status and message in place. */
  function PublishStep(s: State, w: nat): State
    requires Enabled(s, Work(w, true)) && s.docs != []
  {
    var me := s.workers[w];
    match me.pc
    case Build =>
      if |me.built| >= |s.results| then Goto(s, w, Publish)
      else s.(workers := s.workers[w := me.(built := me.built + [RowObject(s.results[|me.built|])])])
    case Publish =>
      var columns := if s.results == [] then [] else Columns(s.results[0]);
      var json := JsonObject(Some(JsonTable(columns, me.built)), None, None);
      Goto(s, w, SetStatus).(docs := s.docs + [Doc(json, s.snapshot)])
    case SetStatus =>
      var last := |s.docs| - 1;
      var json := s.docs[last].json.(status := Some("OK."));
      Goto(s, w, SetMessage).(docs := s.docs[last := s.docs[last].(json := json)])
    case SetMessage =>
      var last := |s.docs| - 1;
      var json := s.docs[last].json.(message := Some("OK."));
      Goto(s, w, Release).(docs := s.docs[last := s.docs[last].(json := json)])
    case _ => s
  }

  predicate Locking(pc: Pc) {
    !Critical(pc) || pc.Release?
  }

  predicate Publishing(pc: Pc) {
    pc.Build? || pc.Publish? || pc.SetStatus? || pc.SetMessage?
  }

  function WorkerStep(s: State, w: nat, ok: bool): State
    requires Enabled(s, Work(w, ok)) && s.history != [] && s.docs != []
  {
    if Locking(s.workers[w].pc) then LockStep(s, w)
    else if Publishing(s.workers[w].pc) then PublishStep(s, w)
    else FetchStep(s, w, ok)
  }

  function Apply(s: State, step: Step): State
    requires Enabled(s, step) && s.history != [] && s.docs != []
  {
    match step
    case Work(w, ok) => WorkerStep(s, w, ok)
    case Write(rows) => s.(history := s.history + [rows])
    case SetState(on) => s.(running := on)
    case Spawn => s.(workers := s.workers + [Worker(Test, 0, [], 0)])
    case Join => s.(readers := s.readers + [|s.docs| - 1])
    case Take(r) => s.(readers := s.readers[r := |s.docs| - 1])
  }

  /** A new cached action over a database with some rows: nothing is published but the empty object. */
  ghost predicate Init(s: State) {
    && |s.history| == 1 && s.running && s.holder.None? && !s.error
    && s.query == [] && s.results == [] && s.snapshot == 0
    && s.docs == [Doc(EMPTY_OBJECT, 0)] && s.workers == [] && s.readers == []
  }

  // ----- The invariant -----

  /** Only the holder is inside, and it stands on complete rows of one version, no older than what is published. */
  ghost predicate MutexHeld(s: State) {
    && (s.holder.Some? ==> s.holder.value < |s.workers| && Critical(s.workers[s.holder.value].pc))
    && (forall w :: 0 <= w < |s.workers| && Critical(s.workers[w].pc) ==> s.holder == Some(w))
    && (s.error ==> forall w :: 0 <= w < |s.workers| ==> !Refreshing(s.workers[w].pc))
  }

  ghost predicate RowsOfOneVersion(s: State, me: Worker) {
    && s.snapshot < |s.history| && s.query == s.history[s.snapshot]
    && s.docs != [] && s.docs[|s.docs| - 1].version <= s.snapshot
    && match me.pc
       case Fetch => me.cursor <= |s.query| && s.results == s.query[..me.cursor]
       case LastId => s.results == s.query
       case Condition => s.results == s.query
       case Build =>
         && s.results == s.query && |me.built| <= |s.results|
         && me.built == TableJson(s.results).data[..|me.built|]
       case Publish => s.results == s.query && me.built == TableJson(s.results).data
       case _ => true
  }

  ghost predicate HolderConsistent(s: State) {
    s.holder.Some? && s.holder.value < |s.workers| ==>
      var me := s.workers[s.holder.value];
      && (me.pc.Compose? || me.pc.Execute? ==> s.results == [])
      && ((me.pc.Fetch? || me.pc.LastId? || me.pc.Condition? || me.pc.Build? || me.pc.Publish?) ==>
            RowsOfOneVersion(s, me))
  }

  /** Every published object but the first shows exactly the rows of its version, and versions never decrease. */
  ghost predicate DocsExact(s: State) {
    && s.history != [] && s.docs != [] && s.snapshot < |s.history|
    && s.docs[0].json.table.None? && s.docs[0].version == 0
    && (forall i :: 0 <= i < |s.docs| ==> s.docs[i].version < |s.history|)
    && (forall i :: 0 < i < |s.docs| ==> s.docs[i].json.table == Some(TableJson(s.history[s.docs[i].version])))
    && (forall i, j :: 0 <= i <= j < |s.docs| ==> s.docs[i].version <= s.docs[j].version)
    && (forall r :: 0 <= r < |s.readers| ==> s.readers[r] < |s.docs|)
  }

  ghost predicate Inv(s: State) {
    MutexHeld(s) && HolderConsistent(s) && DocsExact(s)
  }

  lemma InitInv(s: State)
    requires Init(s)
    ensures Inv(s)
  {
  }

  lemma LockKeepsMutex(s: State, w: nat)
    requires MutexHeld(s) && Enabled(s, Work(w, true)) && Locking(s.workers[w].pc)
    ensures MutexHeld(LockStep(s, w))
  {
  }

  lemma LockKeepsHolder(s: State, w: nat)
    requires MutexHeld(s) && HolderConsistent(s) && Enabled(s, Work(w, true)) && Locking(s.workers[w].pc)
    ensures HolderConsistent(LockStep(s, w))
  {
  }

  lemma FetchKeepsMutex(s: State, w: nat, ok: bool)
    requires MutexHeld(s) && s.history != []
    requires Enabled(s, Work(w, ok)) && Critical(s.workers[w].pc) && !Publishing(s.workers[w].pc)
    ensures MutexHeld(FetchStep(s, w, ok))
  {
  }

  lemma FetchKeepsHolder(s: State, w: nat, ok: bool)
    requires MutexHeld(s) && HolderConsistent(s) && DocsExact(s) && Enabled(s, Work(w, ok))
    requires !s.workers[w].pc.Fetch? && Critical(s.workers[w].pc) && !Publishing(s.workers[w].pc)
    ensures HolderConsistent(FetchStep(s, w, ok))
  {
    assert s.docs[|s.docs| - 1].version < |s.history|;
  }

  lemma RowKeepsHolder(s: State, w: nat, ok: bool)
    requires MutexHeld(s) && HolderConsistent(s) && s.history != []
    requires Enabled(s, Work(w, ok)) && s.workers[w].pc.Fetch?
    ensures HolderConsistent(FetchStep(s, w, ok))
  {
    var me := s.workers[w];
    if me.cursor < |s.query| {
      assert s.query[..me.cursor + 1] == s.query[..me.cursor] + [s.query[me.cursor]];
    } else {
      assert s.query[..me.cursor] == s.query;
    }
  }

  lemma PublishKeepsMutex(s: State, w: nat)
    requires MutexHeld(s) && s.docs != [] && Enabled(s, Work(w, true)) && Publishing(s.workers[w].pc)
    ensures MutexHeld(PublishStep(s, w))
  {
  }

  lemma PublishKeepsHolder(s: State, w: nat)
    requires MutexHeld(s) && HolderConsistent(s) && s.docs != []
    requires Enabled(s, Work(w, true)) && Publishing(s.workers[w].pc)
    ensures HolderConsistent(PublishStep(s, w))
  {
    var me := s.workers[w];
    if me.pc.Build? && |me.built| < |s.results| {
      var data := TableJson(s.results).data;
      assert data[..|me.built| + 1] == data[..|me.built|] + [data[|me.built|]];
    } else if me.pc.Build? {
      assert TableJson(s.results).data[..|me.built|] == TableJson(s.results).data;
    }
  }

  /** The published objects only matter through their tables and versions. */
  lemma DocsAgree(s: State, t: State)
    requires DocsExact(s) && t.history == s.history && t.readers == s.readers && |t.docs| == |s.docs|
    requires t.snapshot < |t.history|
    requires forall i :: 0 <= i < |s.docs| ==>
               t.docs[i].version == s.docs[i].version && t.docs[i].json.table == s.docs[i].json.table
    ensures DocsExact(t)
  {
  }

  lemma DocAppended(s: State, t: State, doc: Doc)
    requires DocsExact(s) && t.history == s.history && t.readers == s.readers && t.docs == s.docs + [doc]
    requires t.snapshot == s.snapshot
    requires s.docs[|s.docs| - 1].version <= doc.version < |s.history|
    requires doc.json.table == Some(TableJson(s.history[doc.version]))
    ensures DocsExact(t)
  {
    var last := |s.docs| - 1;
    assert forall i :: 0 <= i < |s.docs| ==> s.docs[i].version <= s.docs[last].version;
  }

  lemma PublishKeepsDocs(s: State, w: nat)
    requires MutexHeld(s) && HolderConsistent(s) && DocsExact(s)
    requires Enabled(s, Work(w, true)) && Publishing(s.workers[w].pc)
    ensures DocsExact(PublishStep(s, w))
  {
    var t := PublishStep(s, w);
    if s.workers[w].pc.Publish? {
      var doc := t.docs[|s.docs|];
      assert doc.json.table == Some(TableJson(s.results));
      DocAppended(s, t, doc);
    } else {
      DocsAgree(s, t);
    }
  }

  lemma EnvironmentKeepsMutexAndHolder(s: State, step: Step)
    requires Inv(s) && Enabled(s, step) && !step.Work?
    ensures MutexHeld(Apply(s, step)) && HolderConsistent(Apply(s, step))
  {
  }

  lemma EnvironmentKeepsDocs(s: State, step: Step)
    requires DocsExact(s) && Enabled(s, step) && !step.Work?
    ensures DocsExact(Apply(s, step))
  {
  }

  /** Locking and fetching leave alone what readers see. */
  ghost predicate SameDocs(s: State, t: State) {
    t.docs == s.docs && t.history == s.history && t.readers == s.readers
  }

  lemma LockKeepsDocs(s: State, w: nat)
    requires Enabled(s, Work(w, true)) && s.snapshot < |s.history|
    ensures SameDocs(s, LockStep(s, w)) && LockStep(s, w).snapshot < |s.history|
  {
  }

  lemma FetchKeepsDocs(s: State, w: nat, ok: bool)
    requires Enabled(s, Work(w, ok)) && s.snapshot < |s.history|
    ensures SameDocs(s, FetchStep(s, w, ok)) && FetchStep(s, w, ok).snapshot < |s.history|
  {
  }

  lemma LockKeepsInv(s: State, w: nat)
    requires Inv(s) && Enabled(s, Work(w, true)) && Locking(s.workers[w].pc)
    ensures Inv(LockStep(s, w))
  {
    LockKeepsMutex(s, w);
    LockKeepsHolder(s, w);
    LockKeepsDocs(s, w);
    DocsAgree(s, LockStep(s, w));
  }

  lemma FetchKeepsInv(s: State, w: nat, ok: bool)
    requires Inv(s) && Enabled(s, Work(w, ok)) && !Locking(s.workers[w].pc) && !Publishing(s.workers[w].pc)
    ensures Inv(FetchStep(s, w, ok))
  {
    FetchKeepsMutex(s, w, ok);
    if s.workers[w].pc.Fetch? { RowKeepsHolder(s, w, ok); } else { FetchKeepsHolder(s, w, ok); }
    FetchKeepsDocs(s, w, ok);
    DocsAgree(s, FetchStep(s, w, ok));
  }

  lemma PublishKeepsInv(s: State, w: nat)
    requires Inv(s) && Enabled(s, Work(w, true)) && Publishing(s.workers[w].pc)
    ensures Inv(PublishStep(s, w))
  {
    PublishKeepsMutex(s, w);
    PublishKeepsHolder(s, w);
    PublishKeepsDocs(s, w);
  }

  /** Every step keeps the invariant. */
  lemma InvStep(s: State, step: Step)
    requires Inv(s) && Enabled(s, step)
    ensures Inv(Apply(s, step))
  {
    if !step.Work? {
      EnvironmentKeepsMutexAndHolder(s, step);
      EnvironmentKeepsDocs(s, step);
    } else if Locking(s.workers[step.w].pc) {
      LockKeepsInv(s, step.w);
    } else if Publishing(s.workers[step.w].pc) {
      PublishKeepsInv(s, step.w);
    } else {
      FetchKeepsInv(s, step.w, step.ok);
    }
  }
}
