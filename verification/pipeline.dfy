/**
 * What a run of a function's actions means, on values that are copied rather than shared
 * (src/functions/function.cpp ProcessJSON_, src/functions/action.cpp Work_ and what it calls).
 */
module Pipeline {
  import opened Wrappers
  import opened Query
  import opened Json

  /** One request to the database server: opening a session, or executing a statement with its bound arguments. */
  datatype Event = Connect | Execute(sql: string, args: seq<Value>)

  /** Fetched rows; not complete when reading them raised an exception after the given rows. */
  datatype Reply = Failed | Fetched(rows: Table, complete: bool)

  /** An arbitrary server: the reply to the last event may depend on everything that was sent before. */
  type Server = seq<Event> -> Reply

  datatype Severity = Warning | Error

  /** The answer of a parameter's functor, which may also set the parameter's error text. */
  datatype Verdict = Verdict(holds: bool, error: Option<string>)

  datatype ParameterCondition = ParameterCondition(identifier: string, severity: Severity, functor: Value -> Verdict)

  datatype ActionCondition = ActionCondition(identifier: string, severity: Severity, functor: Table -> bool)

  datatype Source = Own | Position(row: nat, column: nat, relatedAction: string)

  datatype ParameterDef = ParameterDef(
    source: Source, name: string, error: string, value: Value, condition: Option<ParameterCondition>, editable: bool)

  /** An action before a run; it may already be in error, and it may have rows of an earlier run. */
  datatype ActionDef = ActionDef(
    identifier: string, sql: string, parameters: seq<ParameterDef>, condition: Option<ActionCondition>,
    final: bool, customError: string, status: string, message: string, error: bool, rows: Table)

  const LAST_INSERT_ID := Execute("SELECT LAST_INSERT_ID()", [])

  // ----- Parameters -----

  /** The first action with the identifier. */
  function FindAction(ids: seq<string>, id: string): (k: Option<nat>)
    ensures k.Some? ==> k.value < |ids| && ids[k.value] == id && id !in ids[..k.value]
    ensures k.None? ==> id !in ids
  {
    if ids == [] then None
    else
      var last := |ids| - 1;
      var k := FindAction(ids[..last], id);
      if k.Some? then
        assert ids[..last][..k.value] == ids[..k.value];
        k
      else if ids[last] == id then Some(last)
      else None
  }

  /** The value a parameter has once its position has been looked up. */
  function Resolve(ids: seq<string>, tables: seq<Table>, p: ParameterDef): Value
    requires |ids| == |tables|
  {
    match p.source
    case Own => p.value
    case Position(row, column, related) =>
      var k := FindAction(ids, related);
      if k.None? then p.value
      else
        match CellAt(tables[k.value], row, column)
        case Some(v) => v
        case None => p.value
  }

  /** The error text of a parameter after its functor was called on the value. */
  function ErrorAfter(p: ParameterDef, v: Value): string {
    if p.condition.Some? then
      match p.condition.value.functor(v).error
      case Some(text) => text
      case None => p.error
    else p.error
  }

  predicate Accepts(p: ParameterDef, v: Value) {
    p.condition.Some? && p.condition.value.severity.Error? ==> p.condition.value.functor(v).holds
  }

  function ParameterText(identifier: string, name: string): string {
    "Parameter condition error (Identifier: " + identifier + ", Parameter name: " + name + ")."
  }

  function RejectionText(p: ParameterDef, v: Value): string
    requires !Accepts(p, v)
  {
    var error := ErrorAfter(p, v);
    if error == "" then ParameterText(p.condition.value.identifier, p.name) else error
  }

  datatype Composed = Bound(args: seq<Value>) | Rejected(text: string)

  /** Binding the parameters from the n-th on, after the given arguments. */
  function ComposeFrom(ids: seq<string>, tables: seq<Table>, params: seq<ParameterDef>, n: nat, args: seq<Value>)
    : Composed
    requires |ids| == |tables| && n <= |params|
    decreases |params| - n
  {
    if n == |params| then Bound(args)
    else
      var v := Resolve(ids, tables, params[n]);
      if Accepts(params[n], v) then ComposeFrom(ids, tables, params, n + 1, args + [v])
      else Rejected(RejectionText(params[n], v))
  }

  function Compose(ids: seq<string>, tables: seq<Table>, params: seq<ParameterDef>): Composed
    requires |ids| == |tables|
  {
    ComposeFrom(ids, tables, params, 0, [])
  }

  function Resolved(ids: seq<string>, tables: seq<Table>, params: seq<ParameterDef>): (args: seq<Value>)
    requires |ids| == |tables|
  {
    seq(|params|, n requires 0 <= n < |params| => Resolve(ids, tables, params[n]))
  }

  /** The n-th parameter is the first one whose error condition does not hold. */
  ghost predicate FirstRejected(ids: seq<string>, tables: seq<Table>, params: seq<ParameterDef>, n: nat)
    requires |ids| == |tables|
  {
    && n < |params|
    && !Accepts(params[n], Resolve(ids, tables, params[n]))
    && forall m :: 0 <= m < n ==> Accepts(params[m], Resolve(ids, tables, params[m]))
  }

  ghost predicate AllAccepted(ids: seq<string>, tables: seq<Table>, params: seq<ParameterDef>)
    requires |ids| == |tables|
  {
    forall m :: 0 <= m < |params| ==> Accepts(params[m], Resolve(ids, tables, params[m]))
  }

  lemma {:induction false} ComposeFromMeaning(ids: seq<string>, tables: seq<Table>, params: seq<ParameterDef>, n: nat)
    requires |ids| == |tables| && n <= |params|
    requires forall m :: 0 <= m < n ==> Accepts(params[m], Resolve(ids, tables, params[m]))
    ensures var c := ComposeFrom(ids, tables, params, n, Resolved(ids, tables, params)[..n]);
            && (c.Bound? ==> AllAccepted(ids, tables, params) && c.args == Resolved(ids, tables, params))
            && (c.Rejected? ==> exists k: nat :: FirstRejected(ids, tables, params, k)
                                  && c.text == RejectionText(params[k], Resolve(ids, tables, params[k])))
    decreases |params| - n
  {
    var all := Resolved(ids, tables, params);
    if n == |params| {
      assert all[..n] == all;
    } else if Accepts(params[n], Resolve(ids, tables, params[n])) {
      assert all[..n] + [all[n]] == all[..n + 1];
      ComposeFromMeaning(ids, tables, params, n + 1);
    } else {
      assert FirstRejected(ids, tables, params, n);
    }
  }

  /**
   * The gate: binding succeeds exactly when every error condition holds, and then binds the resolved values in
   * order; otherwise the text is that of the first parameter whose condition fails.
   */
  lemma ComposeMeaning(ids: seq<string>, tables: seq<Table>, params: seq<ParameterDef>)
    requires |ids| == |tables|
    ensures var c := Compose(ids, tables, params);
            && (c.Bound? <==> AllAccepted(ids, tables, params))
            && (c.Bound? ==> c.args == Resolved(ids, tables, params))
            && (c.Rejected? ==> exists n: nat :: FirstRejected(ids, tables, params, n))
            && (forall n: nat :: FirstRejected(ids, tables, params, n)
                  ==> c == Rejected(RejectionText(params[n], Resolve(ids, tables, params[n]))))
  {
    var all := Resolved(ids, tables, params);
    assert all[..0] == [];
    ComposeFromMeaning(ids, tables, params, 0);
    var c := Compose(ids, tables, params);
    if c.Rejected? {
      var k: nat :| FirstRejected(ids, tables, params, k)
               && c.text == RejectionText(params[k], Resolve(ids, tables, params[k]));
      forall n: nat | FirstRejected(ids, tables, params, n)
        ensures n == k
      {
      }
    }
  }

  // ----- One action -----

  function ActionText(identifier: string, action: string): string {
    "Action condition error (Identifier: " + identifier + ", Action: " + action + ")."
  }

  predicate ActionHolds(def: ActionDef, rows: Table) {
    def.condition.Some? && def.condition.value.severity.Error? ==> def.condition.value.functor(rows)
  }

  function ActionRejection(def: ActionDef): string
    requires def.condition.Some?
  {
    if def.customError == "" then ActionText(def.condition.value.identifier, def.identifier) else def.customError
  }

  /** The log after an action, the rows in its results, and the text of its error if it failed. */
  datatype ActionRun = ActionRun(log: seq<Event>, rows: Table, failure: Option<string>)

  /** After the rows were made: the last insert id and the action's own condition. */
  function Conclude(server: Server, def: ActionDef, rows: Table, log: seq<Event>): ActionRun {
    var log' := log + [LAST_INSERT_ID];
    var reply := server(log');
    if reply.Failed? || !reply.complete then ActionRun(log', rows, Some(def.customError))
    else if !ActionHolds(def, rows) then ActionRun(log', rows, Some(ActionRejection(def)))
    else ActionRun(log', rows, None)
  }

  /** After the main statement was executed: the fetched rows are added to those of before, then the rest. */
  function Finish(server: Server, def: ActionDef, log: seq<Event>): ActionRun {
    match server(log)
    case Failed => ActionRun(log, def.rows, Some(def.customError))
    case Fetched(rows, complete) =>
      if !complete then ActionRun(log, def.rows + rows, Some(def.customError))
      else Conclude(server, def, def.rows + rows, log)
  }

  function RunAction(server: Server, ids: seq<string>, tables: seq<Table>, def: ActionDef, log: seq<Event>): ActionRun
    requires |ids| == |tables|
  {
    var log' := log + [Connect];
    if def.error then ActionRun(log, def.rows, Some(def.customError))
    else if server(log').Failed? then ActionRun(log', def.rows, Some(def.customError))
    else
      match Compose(ids, tables, def.parameters)
      case Rejected(text) => ActionRun(log', def.rows, Some(text))
      case Bound(args) => Finish(server, def, log' + [Execute(def.sql, args)])
  }

  function ActionJson(def: ActionDef, rows: Table): JsonObject {
    JsonObject(Some(TableJson(rows)), Some(def.status), Some(def.message))
  }

  // ----- All actions -----

  datatype Outcome = Outcome(log: seq<Event>, tables: seq<Table>, json: JsonObject, failure: Option<string>)

  function Ids(defs: seq<ActionDef>): (ids: seq<string>)
    ensures |ids| == |defs|
  {
    seq(|defs|, i requires 0 <= i < |defs| => defs[i].identifier)
  }

  function RunFrom(server: Server, defs: seq<ActionDef>, i: nat, tables: seq<Table>, json: JsonObject, log: seq<Event>)
    : Outcome
    requires |tables| == |defs| && i <= |defs|
    decreases |defs| - i
  {
    if i == |defs| then Outcome(log, tables, json, None)
    else
      var run := RunAction(server, Ids(defs), tables, defs[i], log);
      if run.failure.Some? then Outcome(run.log, tables[i := run.rows], json, run.failure)
      else RunFrom(server, defs, i + 1, tables[i := run.rows],
                   if defs[i].final then ActionJson(defs[i], run.rows) else json, run.log)
  }

  /** The tables before a run. */
  function Prior(defs: seq<ActionDef>): (tables: seq<Table>)
    ensures |tables| == |defs|
  {
    seq(|defs|, i requires 0 <= i < |defs| => defs[i].rows)
  }

  /** A run over all actions. */
  function Run(server: Server, defs: seq<ActionDef>, json: JsonObject, log: seq<Event>): Outcome {
    RunFrom(server, defs, 0, Prior(defs), json, log)
  }

  /** How the actions of a file function end; reading a first cell that is not a string raises an exception. */
  datatype FileEnding = PathFound(path: string) | Refused(text: string) | NotAString

  /** What a file function reads of an action's table. */
  function FirstCell(def: ActionDef, table: Table): Option<Value> {
    if def.final then CellAt(table, 0, 0) else None
  }

  /** The run of a file function: like the run above, but the last final action with a first cell names the file. */
  function FileRunFrom(server: Server, defs: seq<ActionDef>, i: nat, tables: seq<Table>, path: string, log: seq<Event>)
    : (seq<Event>, FileEnding)
    requires |tables| == |defs| && i <= |defs|
    decreases |defs| - i
  {
    if i == |defs| then (log, PathFound(path))
    else
      var run := RunAction(server, Ids(defs), tables, defs[i], log);
      if run.failure.Some? then (run.log, Refused(run.failure.value))
      else
        match FirstCell(defs[i], run.rows)
        case None => FileRunFrom(server, defs, i + 1, tables[i := run.rows], path, run.log)
        case Some(Str(s)) => FileRunFrom(server, defs, i + 1, tables[i := run.rows], s, run.log)
        case Some(_) => (run.log, NotAString)
  }

  function FileRun(server: Server, defs: seq<ActionDef>, path: string, log: seq<Event>): (seq<Event>, FileEnding) {
    FileRunFrom(server, defs, 0, Prior(defs), path, log)
  }

  // ----- What a whole run sends, read off its final tables -----

  /**
   * The value of a parameter of action j, given the tables at the end of the run: the cell of the first action with
   * the related identifier, if that cell exists and is not NULL; otherwise its own. The table is the final one when
   * that action stands before j, and the one of before the run otherwise.
   */
  function Dataflow(defs: seq<ActionDef>, final: seq<Table>, j: nat, p: ParameterDef): Value
    requires |final| == |defs|
  {
    match p.source
    case Own => p.value
    case Position(row, column, related) =>
      var k := FindAction(Ids(defs), related);
      if k.None? then p.value
      else
        match CellAt(if k.value < j then final[k.value] else defs[k.value].rows, row, column)
        case Some(v) => v
        case None => p.value
  }

  function Arguments(defs: seq<ActionDef>, final: seq<Table>, j: nat): (args: seq<Value>)
    requires |final| == |defs| && j < |defs|
  {
    seq(|defs[j].parameters|, n requires 0 <= n < |defs[j].parameters| =>
      Dataflow(defs, final, j, defs[j].parameters[n]))
  }

  /** Everything action j sends when it succeeds. */
  function Script(defs: seq<ActionDef>, final: seq<Table>, j: nat): (events: seq<Event>)
    requires |final| == |defs| && j < |defs|
    ensures |events| == 3
  {
    [Connect, Execute(defs[j].sql, Arguments(defs, final, j)), LAST_INSERT_ID]
  }

  function Scripts(defs: seq<ActionDef>, final: seq<Table>, n: nat): (events: seq<Event>)
    requires |final| == |defs| && n <= |defs|
    ensures |events| == 3 * n
  {
    if n == 0 then [] else Scripts(defs, final, n - 1) + Script(defs, final, n - 1)
  }

  /** Every error condition of action j holds for the arguments it is given. */
  ghost predicate Gate(defs: seq<ActionDef>, final: seq<Table>, j: nat)
    requires |final| == |defs| && j < |defs|
  {
    forall p :: p in defs[j].parameters ==> Accepts(p, Dataflow(defs, final, j, p))
  }

  /** The n-th parameter of action j is the first one whose error condition fails. */
  ghost predicate FirstFailing(defs: seq<ActionDef>, final: seq<Table>, j: nat, n: nat)
    requires |final| == |defs| && j < |defs|
  {
    var params := defs[j].parameters;
    && n < |params|
    && !Accepts(params[n], Dataflow(defs, final, j, params[n]))
    && forall m :: 0 <= m < n ==> Accepts(params[m], Dataflow(defs, final, j, params[m]))
  }

  /** The server answered the request in full. */
  predicate InFull(reply: Reply) {
    reply.Fetched? && reply.complete
  }

  /** The rows the server sent in full as the reply were added to those the action had before. */
  ghost predicate Added(def: ActionDef, reply: Reply, table: Table) {
    InFull(reply) && table == def.rows + reply.rows
  }

  /**
   * Action j ran to its end: its session was opened, it passed the gate, its table got the server's reply to its
   * statement, and its last-insert-id query was answered.
   */
  ghost predicate Performed(server: Server, defs: seq<ActionDef>, final: seq<Table>, start: seq<Event>, j: nat)
    requires |final| == |defs| && j < |defs|
  {
    var before := start + Scripts(defs, final, j);
    && !defs[j].error
    && !server(before + Script(defs, final, j)[..1]).Failed?
    && Gate(defs, final, j)
    && Added(defs[j], server(before + Script(defs, final, j)[..2]), final[j])
    && InFull(server(before + Script(defs, final, j)[..3]))
    && ActionHolds(defs[j], final[j])
  }

  /** Action j failed after sending `cut` of its events; this is the text it leaves, and the table. */
  ghost predicate FailedAt(server: Server, defs: seq<ActionDef>, final: seq<Table>, start: seq<Event>, j: nat, cut: nat,
                           text: string)
    requires |final| == |defs| && j < |defs|
  {
    var before := start + Scripts(defs, final, j);
    && cut <= 3
    && (defs[j].error <==> cut == 0)
    && (cut == 0 ==> text == defs[j].customError)
    && (cut <= 1 ==> final[j] == defs[j].rows)
    && var reply := server(before + Script(defs, final, j)[..cut]);
    && (cut == 1 ==>
          if reply.Failed? then text == defs[j].customError
          else exists n: nat :: FirstFailing(defs, final, j, n)
                 && text == RejectionText(defs[j].parameters[n], Dataflow(defs, final, j, defs[j].parameters[n])))
    && (cut >= 2 ==> !server(before + Script(defs, final, j)[..1]).Failed? && Gate(defs, final, j))
    && (cut == 2 ==>
          && !InFull(reply) && text == defs[j].customError
          && final[j] == defs[j].rows + if reply.Failed? then [] else reply.rows)
    && (cut == 3 ==>
          && Added(defs[j], server(before + Script(defs, final, j)[..2]), final[j])
          && if !InFull(reply) then text == defs[j].customError
             else !ActionHolds(defs[j], final[j]) && text == ActionRejection(defs[j]))
  }

  /**
   * A run over all actions stops after `stop` of them. All statements and all replies are accounted for by the final
   * tables: nothing is sent after the failure, and the actions after the failing one have the rows they had.
   */
  ghost predicate Explains(server: Server, defs: seq<ActionDef>, start: seq<Event>, out: Outcome, stop: nat, cut: nat)
  {
    && |out.tables| == |defs| && stop <= |defs|
    && (forall j :: 0 <= j < stop ==> Performed(server, defs, out.tables, start, j))
    && (forall j :: stop < j < |defs| ==> out.tables[j] == defs[j].rows)
    && if out.failure.None? then
         stop == |defs| && out.log == start + Scripts(defs, out.tables, stop)
       else
         && stop < |defs|
         && FailedAt(server, defs, out.tables, start, stop, cut, out.failure.value)
         && out.log == start + Scripts(defs, out.tables, stop) + Script(defs, out.tables, stop)[..cut]
  }

  /** Later actions never change the table of an earlier one. */
  lemma {:induction false} TablesKept(server: Server, defs: seq<ActionDef>, i: nat, tables: seq<Table>,
                                      json: JsonObject, log: seq<Event>)
    requires |tables| == |defs| && i <= |defs|
    ensures var out := RunFrom(server, defs, i, tables, json, log);
            && |out.tables| == |defs|
            && (forall k :: 0 <= k < i ==> out.tables[k] == tables[k])
            && (i < |defs| ==> out.tables[i] == RunAction(server, Ids(defs), tables, defs[i], log).rows)
    decreases |defs| - i
  {
    if i < |defs| {
      var run := RunAction(server, Ids(defs), tables, defs[i], log);
      if run.failure.None? {
        TablesKept(server, defs, i + 1, tables[i := run.rows],
                   if defs[i].final then ActionJson(defs[i], run.rows) else json, run.log);
      }
    }
  }

  /**
   * While action i runs, a position is looked up in the final table of an earlier action, and in the rows of before the
   * run for the action itself and for later ones; a reference to one of those without rows keeps the value it had.
   */
  lemma ResolveIsDataflow(defs: seq<ActionDef>, tables: seq<Table>, final: seq<Table>, i: nat, p: ParameterDef)
    requires |tables| == |final| == |defs| && i < |defs|
    requires forall k :: 0 <= k < i ==> final[k] == tables[k]
    requires forall k :: i <= k < |defs| ==> tables[k] == defs[k].rows
    ensures Resolve(Ids(defs), tables, p) == Dataflow(defs, final, i, p)
    ensures p.source.Position? ==>
              var k := FindAction(Ids(defs), p.source.relatedAction);
              k.Some? && i <= k.value && defs[k.value].rows == [] ==> Resolve(Ids(defs), tables, p) == p.value
  {
    if p.source.Position? {
      var k := FindAction(Ids(defs), p.source.relatedAction);
      if k.Some? && i <= k.value {
        assert tables[k.value] == defs[k.value].rows;
      }
    }
  }

  lemma ComposeIsDataflow(defs: seq<ActionDef>, tables: seq<Table>, final: seq<Table>, i: nat)
    requires |tables| == |final| == |defs| && i < |defs|
    requires forall k :: 0 <= k < i ==> final[k] == tables[k]
    requires forall k :: i <= k < |defs| ==> tables[k] == defs[k].rows
    ensures var c := Compose(Ids(defs), tables, defs[i].parameters);
            && (c.Bound? <==> Gate(defs, final, i))
            && (c.Bound? ==> c.args == Arguments(defs, final, i))
            && (c.Rejected? ==>
                  exists n: nat :: (
                    && FirstFailing(defs, final, i, n)
                    && c.text == RejectionText(defs[i].parameters[n], Dataflow(defs, final, i, defs[i].parameters[n]))))
  {
    var params := defs[i].parameters;
    var ids := Ids(defs);
    ComposeMeaning(ids, tables, params);
    forall n | 0 <= n < |params|
      ensures Resolve(ids, tables, params[n]) == Dataflow(defs, final, i, params[n])
    {
      ResolveIsDataflow(defs, tables, final, i, params[n]);
    }
    var c := Compose(ids, tables, params);
    if c.Rejected? {
      var n: nat :| FirstRejected(ids, tables, params, n);
      assert FirstFailing(defs, final, i, n);
      assert params[n] in params;
    } else {
      assert Resolved(ids, tables, params) == Arguments(defs, final, i);
    }
  }

  /** One action of a run, in terms of the final tables. */
  lemma ActionExplained(server: Server, defs: seq<ActionDef>, tables: seq<Table>, final: seq<Table>, i: nat,
                        start: seq<Event>) returns (cut: nat)
    requires |tables| == |final| == |defs| && i < |defs|
    requires forall k :: 0 <= k < i ==> final[k] == tables[k]
    requires forall k :: i <= k < |defs| ==> tables[k] == defs[k].rows
    requires final[i] == RunAction(server, Ids(defs), tables, defs[i], start + Scripts(defs, final, i)).rows
    ensures var run := RunAction(server, Ids(defs), tables, defs[i], start + Scripts(defs, final, i));
            && cut <= 3
            && run.log == start + Scripts(defs, final, i) + Script(defs, final, i)[..cut]
            && if run.failure.None? then cut == 3 && Performed(server, defs, final, start, i)
               else FailedAt(server, defs, final, start, i, cut, run.failure.value)
  {
    ComposeIsDataflow(defs, tables, final, i);
    var before := start + Scripts(defs, final, i);
    var script := Script(defs, final, i);
    var run := RunAction(server, Ids(defs), tables, defs[i], before);
    cut := |run.log| - |before|;
    assert before == before + script[..0];
    assert before + [Connect] == before + script[..1];
    assert before + [Connect] + [script[1]] == before + script[..2];
    assert before + [Connect] + [script[1]] + [LAST_INSERT_ID] == before + script[..3];
  }

  /** The same for the rest of a run from action i on, whose outcome is `out`. */
  lemma {:induction false} RunExplained(server: Server, defs: seq<ActionDef>, i: nat, tables: seq<Table>,
                                        json: JsonObject, start: seq<Event>, log: seq<Event>, out: Outcome)
    returns (stop: nat, cut: nat)
    requires |tables| == |defs| == |out.tables| && i <= |defs|
    requires out == RunFrom(server, defs, i, tables, json, log)
    requires forall k :: i <= k < |defs| ==> tables[k] == defs[k].rows
    requires log == start + Scripts(defs, out.tables, i)
    requires forall j :: 0 <= j < i ==> Performed(server, defs, out.tables, start, j)
    ensures Explains(server, defs, start, out, stop, cut)
    decreases |defs| - i
  {
    if i == |defs| {
      return i, 0;
    }
    TablesKept(server, defs, i, tables, json, log);
    cut := ActionExplained(server, defs, tables, out.tables, i, start);
    var run := RunAction(server, Ids(defs), tables, defs[i], log);
    if run.failure.Some? {
      stop := i;
    } else {
      assert Script(defs, out.tables, i)[..3] == Script(defs, out.tables, i);
      assert run.log == start + Scripts(defs, out.tables, i + 1);
      stop, cut := RunExplained(server, defs, i + 1, tables[i := run.rows],
                                if defs[i].final then ActionJson(defs[i], run.rows) else json, start, run.log, out);
    }
  }

  /**
   * Every run, against any server, sends exactly the statements of a prefix of the
   * actions, each with the arguments given by the dataflow between the actions, and stops at the first failure.
   */
  lemma RunIsPrefix(server: Server, defs: seq<ActionDef>, json: JsonObject, log: seq<Event>)
    ensures exists stop: nat, cut: nat :: Explains(server, defs, log, Run(server, defs, json, log), stop, cut)
  {
    TablesKept(server, defs, 0, Prior(defs), json, log);
    assert log + Scripts(defs, Run(server, defs, json, log).tables, 0) == log;
    var stop, cut := RunExplained(server, defs, 0, Prior(defs), json, log, log, Run(server, defs, json, log));
  }

  // ----- There is no other outcome -----

  /** What action j sends and whether it passes its gate depend on the tables of the earlier actions only. */
  lemma {:induction false} SameInputs(defs: seq<ActionDef>, f: seq<Table>, g: seq<Table>, j: nat)
    requires |f| == |g| == |defs| && j <= |defs| && forall k :: 0 <= k < j ==> f[k] == g[k]
    ensures Scripts(defs, f, j) == Scripts(defs, g, j)
    ensures j < |defs| ==>
              && Script(defs, f, j) == Script(defs, g, j)
              && (Gate(defs, f, j) <==> Gate(defs, g, j))
              && forall p :: Dataflow(defs, f, j, p) == Dataflow(defs, g, j, p)
  {
    if j > 0 {
      SameInputs(defs, f, g, j - 1);
    }
    if j < |defs| {
      assert forall p :: Dataflow(defs, f, j, p) == Dataflow(defs, g, j, p);
      assert Arguments(defs, f, j) == Arguments(defs, g, j);
    }
  }

  lemma PerformedAgree(server: Server, defs: seq<ActionDef>, f: seq<Table>, g: seq<Table>, start: seq<Event>, j: nat)
    requires |f| == |g| == |defs| && j < |defs| && forall k :: 0 <= k < j ==> f[k] == g[k]
    requires Performed(server, defs, f, start, j) && Performed(server, defs, g, start, j)
    ensures f[j] == g[j]
  {
    SameInputs(defs, f, g, j);
  }

  lemma FailingGate(defs: seq<ActionDef>, final: seq<Table>, j: nat)
    requires |final| == |defs| && j < |defs|
    ensures (exists n: nat :: FirstFailing(defs, final, j, n)) ==> !Gate(defs, final, j)
  {
    if n: nat :| FirstFailing(defs, final, j, n) {
      assert defs[j].parameters[n] in defs[j].parameters;
    }
  }

  /** An action cannot both end and fail. */
  lemma PerformedOrFailed(server: Server, defs: seq<ActionDef>, f: seq<Table>, g: seq<Table>, start: seq<Event>, j: nat,
                          cut: nat, text: string)
    requires |f| == |g| == |defs| && j < |defs| && forall k :: 0 <= k < j ==> f[k] == g[k]
    requires Performed(server, defs, f, start, j)
    ensures !FailedAt(server, defs, g, start, j, cut, text)
  {
    SameInputs(defs, f, g, j);
    FailingGate(defs, g, j);
  }

  lemma FailedAgree(server: Server, defs: seq<ActionDef>, f: seq<Table>, g: seq<Table>, start: seq<Event>, j: nat,
                    cut: nat, text: string, cut': nat, text': string)
    requires |f| == |g| == |defs| && j < |defs| && forall k :: 0 <= k < j ==> f[k] == g[k]
    requires FailedAt(server, defs, f, start, j, cut, text) && FailedAt(server, defs, g, start, j, cut', text')
    ensures cut == cut' && text == text' && f[j] == g[j]
  {
    SameInputs(defs, f, g, j);
    FailingGate(defs, f, j);
    if cut == 1 && !server(start + Scripts(defs, f, j) + Script(defs, f, j)[..1]).Failed? {
      var n: nat :| FirstFailing(defs, f, j, n)
                    && text == RejectionText(defs[j].parameters[n], Dataflow(defs, f, j, defs[j].parameters[n]));
      var m: nat :| FirstFailing(defs, g, j, m)
                    && text' == RejectionText(defs[j].parameters[m], Dataflow(defs, g, j, defs[j].parameters[m]));
      assert n == m;
    }
  }

  lemma {:induction false} TablesAgree(server: Server, defs: seq<ActionDef>, start: seq<Event>, f: seq<Table>,
                                       g: seq<Table>, n: nat)
    requires |f| == |g| == |defs| && n <= |defs|
    requires forall j :: 0 <= j < n ==> Performed(server, defs, f, start, j) && Performed(server, defs, g, start, j)
    ensures forall k :: 0 <= k < n ==> f[k] == g[k]
  {
    if n > 0 {
      TablesAgree(server, defs, start, f, g, n - 1);
      PerformedAgree(server, defs, f, g, start, n - 1);
    }
  }

  /** An outcome that is explained does not end where another one goes on. */
  lemma NoEarlierEnd(server: Server, defs: seq<ActionDef>, start: seq<Event>, out: Outcome, stop: nat, cut: nat,
                     out': Outcome, stop': nat, cut': nat)
    requires Explains(server, defs, start, out, stop, cut) && Explains(server, defs, start, out', stop', cut')
    ensures stop >= stop'
  {
    if stop < stop' {
      TablesAgree(server, defs, start, out.tables, out'.tables, stop);
      PerformedOrFailed(server, defs, out'.tables, out.tables, start, stop, cut, out.failure.value);
    }
  }

  /** Any two explained outcomes have the same log, the same tables and the same failure. */
  lemma ExplainedOnce(server: Server, defs: seq<ActionDef>, start: seq<Event>, out: Outcome, stop: nat, cut: nat,
                      out': Outcome, stop': nat, cut': nat)
    requires Explains(server, defs, start, out, stop, cut) && Explains(server, defs, start, out', stop', cut')
    ensures stop == stop' && out.log == out'.log && out.tables == out'.tables && out.failure == out'.failure
  {
    NoEarlierEnd(server, defs, start, out, stop, cut, out', stop', cut');
    NoEarlierEnd(server, defs, start, out', stop', cut', out, stop, cut);
    TablesAgree(server, defs, start, out.tables, out'.tables, stop);
    SameInputs(defs, out.tables, out'.tables, stop);
    if out.failure.Some? {
      FailedAgree(server, defs, out.tables, out'.tables, start, stop, cut, out.failure.value, cut', out'.failure.value);
    }
  }

  /** The partner of RunIsPrefix: log, tables and failure are explained exactly when they are those of the run. */
  lemma RunIsOnlyOutcome(server: Server, defs: seq<ActionDef>, json: JsonObject, log: seq<Event>, out: Outcome)
    ensures var run := Run(server, defs, json, log);
            (exists stop: nat, cut: nat :: Explains(server, defs, log, out, stop, cut))
            <==> out.log == run.log && out.tables == run.tables && out.failure == run.failure
  {
    var run := Run(server, defs, json, log);
    RunIsPrefix(server, defs, json, log);
    var stop: nat, cut: nat :| Explains(server, defs, log, run, stop, cut);
    if stop': nat, cut': nat :| Explains(server, defs, log, out, stop', cut') {
      ExplainedOnce(server, defs, log, run, stop, cut, out, stop', cut');
    }
    if out.log == run.log && out.tables == run.tables && out.failure == run.failure {
      assert Explains(server, defs, log, out, stop, cut);
    }
  }

  // ----- Results that are not reset, and what is reported -----

  /** A server that answers everything with the same row. */
  function Repeating(row: seq<Cell>): Server {
    _ => Fetched([row], true)
  }

  /** The rows of one run are still there in the next one: the second run of an action shows the row twice. */
  lemma SecondRunAppends(row: seq<Cell>)
    ensures var def := ActionDef("a", "SELECT 1", [], None, true, "", "OK.", "OK.", false, []);
            var first := Run(Repeating(row), [def], EMPTY_OBJECT, []);
            var second := Run(Repeating(row), [def.(rows := [row])], EMPTY_OBJECT, first.log);
            && first.failure.None? && first.tables == [[row]]
            && second.failure.None? && second.tables == [[row, row]] && second.json == ActionJson(def, [row, row])
  {
    var def := ActionDef("a", "SELECT 1", [], None, true, "", "OK.", "OK.", false, []);
    OneRun(Repeating(row), def, EMPTY_OBJECT, []);
    OneRun(Repeating(row), def.(rows := [row]), EMPTY_OBJECT, Run(Repeating(row), [def], EMPTY_OBJECT, []).log);
    assert [] + [row] == [row] && [row] + [row] == [row, row];
  }

  /** A run of a single action. */
  lemma OneRun(server: Server, def: ActionDef, json: JsonObject, log: seq<Event>)
    ensures var out := Run(server, [def], json, log);
            var run := RunAction(server, [def.identifier], [def.rows], def, log);
            && out.tables == [run.rows] && out.failure == run.failure && out.log == run.log
            && (run.failure.None? && def.final ==> out.json == ActionJson(def, run.rows))
  {
    var defs := [def];
    var tables := Prior(defs);
    assert Ids(defs) == [def.identifier] && tables == [def.rows];
    var run := RunAction(server, Ids(defs), tables, def, log);
    var json' := if def.final then ActionJson(def, run.rows) else json;
    assert tables[0 := run.rows] == [run.rows];
    assert RunFrom(server, defs, 1, [run.rows], json', run.log) == Outcome(run.log, [run.rows], json', None);
    assert RunFrom(server, defs, 0, tables, json, log)
        == if run.failure.Some? then Outcome(run.log, [run.rows], json, run.failure)
           else RunFrom(server, defs, 1, [run.rows], json', run.log);
  }

  // ----- What conditions do -----

  /** Every condition of the parameters that is an error condition holds for the argument; warnings do not matter. */
  ghost predicate ErrorsHold(params: seq<ParameterDef>, args: seq<Value>)
    requires |params| == |args|
  {
    forall n :: 0 <= n < |params| && params[n].condition.Some? && params[n].condition.value.severity == Error ==>
      params[n].condition.value.functor(args[n]).holds
  }

  /** The log has the statement of action j. */
  predicate Sent(log: seq<Event>, start: seq<Event>, j: nat) {
    |start| + 3 * j + 1 < |log|
  }

  /** What has to be so for the statement of action j: no earlier action failed, and nothing stands in its way. */
  ghost predicate MaySend(server: Server, defs: seq<ActionDef>, start: seq<Event>, out: Outcome, stop: nat, j: nat)
    requires |out.tables| == |defs| && j < |defs|
  {
    && j <= stop && !defs[j].error
    && !server(start + Scripts(defs, out.tables, j) + [Connect]).Failed?
    && ErrorsHold(defs[j].parameters, Arguments(defs, out.tables, j))
  }

  lemma GateMeansErrors(defs: seq<ActionDef>, final: seq<Table>, j: nat)
    requires |final| == |defs| && j < |defs|
    ensures Gate(defs, final, j) <==> ErrorsHold(defs[j].parameters, Arguments(defs, final, j))
  {
    var params := defs[j].parameters;
    if Gate(defs, final, j) {
      forall n | 0 <= n < |params| && params[n].condition.Some? && params[n].condition.value.severity == Error
        ensures params[n].condition.value.functor(Arguments(defs, final, j)[n]).holds
      {
        assert params[n] in params;
      }
    }
    if ErrorsHold(params, Arguments(defs, final, j)) {
      forall p | p in params
        ensures Accepts(p, Dataflow(defs, final, j, p))
      {
        var n :| 0 <= n < |params| && params[n] == p;
        assert Arguments(defs, final, j)[n] == Dataflow(defs, final, j, p);
      }
    }
  }

  lemma {:induction false} ScriptAt(defs: seq<ActionDef>, final: seq<Table>, j: nat, n: nat)
    requires |final| == |defs| && j < n <= |defs|
    ensures Scripts(defs, final, n)[3 * j..3 * j + 3] == Script(defs, final, j)
    decreases n
  {
    if j < n - 1 {
      ScriptAt(defs, final, j, n - 1);
    }
  }

  /**
   * In every run a statement is sent exactly when no earlier action has failed, the action is not in error, its session
   * is opened, and all error conditions of its parameters hold for its arguments, whatever the warnings say; it is the
   * action's own statement with these arguments, and after a success the id of the last row is asked for.
   */
  lemma StatementsSent(server: Server, defs: seq<ActionDef>, json: JsonObject, start: seq<Event>)
    returns (stop: nat, cut: nat)
    ensures var out := Run(server, defs, json, start);
            && Explains(server, defs, start, out, stop, cut)
            && (forall j :: 0 <= j < |defs| ==>
                  (Sent(out.log, start, j) <==> MaySend(server, defs, start, out, stop, j)))
            && (forall j :: 0 <= j < |defs| && Sent(out.log, start, j) ==>
                  out.log[|start| + 3 * j + 1] == Execute(defs[j].sql, Arguments(defs, out.tables, j)))
            && (forall j :: 0 <= j < stop ==>
                  |start| + 3 * j + 2 < |out.log|
                  && out.log[|start| + 3 * j + 2] == Execute("SELECT LAST_INSERT_ID()", []))
  {
    RunIsPrefix(server, defs, json, start);
    var out := Run(server, defs, json, start);
    stop, cut :| Explains(server, defs, start, out, stop, cut);
    forall j | 0 <= j < |defs|
      ensures Sent(out.log, start, j) <==> MaySend(server, defs, start, out, stop, j)
      ensures Sent(out.log, start, j) ==>
                out.log[|start| + 3 * j + 1] == Execute(defs[j].sql, Arguments(defs, out.tables, j))
      ensures j < stop ==>
                |start| + 3 * j + 2 < |out.log|
                && out.log[|start| + 3 * j + 2] == Execute("SELECT LAST_INSERT_ID()", [])
    {
      SentHere(server, defs, start, out, stop, cut, j);
    }
  }

  lemma SentHere(server: Server, defs: seq<ActionDef>, start: seq<Event>, out: Outcome, stop: nat, cut: nat, j: nat)
    requires Explains(server, defs, start, out, stop, cut) && j < |defs|
    ensures Sent(out.log, start, j) <==> MaySend(server, defs, start, out, stop, j)
    ensures Sent(out.log, start, j) ==>
              out.log[|start| + 3 * j + 1] == Execute(defs[j].sql, Arguments(defs, out.tables, j))
    ensures j < stop ==>
              |start| + 3 * j + 2 < |out.log|
              && out.log[|start| + 3 * j + 2] == Execute("SELECT LAST_INSERT_ID()", [])
  {
    GateMeansErrors(defs, out.tables, j);
    assert Script(defs, out.tables, j)[..1] == [Connect];
    if j < stop {
      ScriptAt(defs, out.tables, j, stop);
      var scripts := Scripts(defs, out.tables, stop);
      assert Performed(server, defs, out.tables, start, j);
      assert scripts[3 * j + 1] == scripts[3 * j..3 * j + 3][1] && scripts[3 * j + 2] == scripts[3 * j..3 * j + 3][2];
    } else if j == stop {
      FailingGate(defs, out.tables, j);
    }
  }

  /** The text of a rejected argument: what the functor said, or the preset text, or else the standard one. */
  function TextOf(p: ParameterDef, v: Value): string
    requires p.condition.Some?
  {
    var said := p.condition.value.functor(v).error;
    var error := if said.Some? then said.value else p.error;
    if error != "" then error
    else "Parameter condition error (Identifier: " + p.condition.value.identifier + ", Parameter name: " + p.name + ")."
  }

  /** The text is that of the first parameter whose error condition does not hold for its argument. */
  ghost predicate BreaksCondition(params: seq<ParameterDef>, args: seq<Value>, text: string)
    requires |params| == |args|
  {
    exists n :: (
      && 0 <= n < |params| && params[n].condition.Some? && params[n].condition.value.severity == Error
      && !params[n].condition.value.functor(args[n]).holds && text == TextOf(params[n], args[n])
      && forall m :: 0 <= m < n && params[m].condition.Some? && params[m].condition.value.severity == Error ==>
           params[m].condition.value.functor(args[m]).holds)
  }

  /** The action's own error condition does not hold for its rows. */
  predicate BreaksRows(def: ActionDef, table: Table) {
    def.condition.Some? && def.condition.value.severity == Error && !def.condition.value.functor(table)
  }

  lemma TextOfFailure(server: Server, defs: seq<ActionDef>, final: seq<Table>, start: seq<Event>, j: nat, cut: nat,
                      text: string)
    requires |final| == |defs| && j < |defs| && FailedAt(server, defs, final, start, j, cut, text)
    ensures || text == defs[j].customError
            || BreaksCondition(defs[j].parameters, Arguments(defs, final, j), text)
            || (BreaksRows(defs[j], final[j]) && text == if defs[j].customError != "" then defs[j].customError else
                  "Action condition error (Identifier: " + defs[j].condition.value.identifier
                  + ", Action: " + defs[j].identifier + ").")
  {
    if cut == 1 && text != defs[j].customError {
      var params, args := defs[j].parameters, Arguments(defs, final, j);
      var n: nat :| FirstFailing(defs, final, j, n)
                    && text == RejectionText(params[n], Dataflow(defs, final, j, params[n]));
      assert text == TextOf(params[n], args[n]);
    }
  }

  /**
   * A run that succeeds breaks no error condition. One that fails leaves the preset text of the action at which it
   * stops, when the action was in error or the server did not answer, or the text of the condition that breaks.
   */
  lemma FailureText(server: Server, defs: seq<ActionDef>, json: JsonObject, start: seq<Event>) returns (stop: nat)
    ensures var out := Run(server, defs, json, start);
            && |out.tables| == |defs| && stop <= |defs| && (out.failure.None? <==> stop == |defs|)
            && (forall j :: 0 <= j < stop ==>
                  ErrorsHold(defs[j].parameters, Arguments(defs, out.tables, j)) && !BreaksRows(defs[j], out.tables[j]))
            && (out.failure.Some? ==>
                  var def, text := defs[stop], out.failure.value;
                  || text == def.customError
                  || BreaksCondition(def.parameters, Arguments(defs, out.tables, stop), text)
                  || (BreaksRows(def, out.tables[stop]) && text == if def.customError != "" then def.customError else
                        "Action condition error (Identifier: " + def.condition.value.identifier
                        + ", Action: " + def.identifier + ")."))
  {
    RunIsPrefix(server, defs, json, start);
    var out := Run(server, defs, json, start);
    var s: nat, cut: nat :| Explains(server, defs, start, out, s, cut);
    stop := s;
    forall j | 0 <= j < stop
      ensures ErrorsHold(defs[j].parameters, Arguments(defs, out.tables, j)) && !BreaksRows(defs[j], out.tables[j])
    {
      assert Performed(server, defs, out.tables, start, j);
      GateMeansErrors(defs, out.tables, j);
    }
    if out.failure.Some? {
      TextOfFailure(server, defs, out.tables, start, stop, cut, out.failure.value);
    }
  }

  /** The JSON of a run that succeeds is that of the last final action; without one it is the object passed in. */
  lemma {:induction false} JsonOfRun(server: Server, defs: seq<ActionDef>, i: nat, tables: seq<Table>, json: JsonObject,
                                     log: seq<Event>)
    requires |tables| == |defs| && i <= |defs|
    requires RunFrom(server, defs, i, tables, json, log).failure.None?
    ensures var out := RunFrom(server, defs, i, tables, json, log);
            && |out.tables| == |defs|
            && (forall k :: i <= k < |defs| && defs[k].final && (forall m :: k < m < |defs| ==> !defs[m].final)
                  ==> out.json ==
                        JsonObject(Some(TableJson(out.tables[k])), Some(defs[k].status), Some(defs[k].message)))
            && ((forall k :: i <= k < |defs| ==> !defs[k].final) ==> out.json == json)
    decreases |defs| - i
  {
    if i < |defs| {
      TablesKept(server, defs, i, tables, json, log);
      var run := RunAction(server, Ids(defs), tables, defs[i], log);
      JsonOfRun(server, defs, i + 1, tables[i := run.rows],
                if defs[i].final then ActionJson(defs[i], run.rows) else json, run.log);
    }
  }

  /** The path is the first cell of the last final action from the i-th on that has one, or else the default. */
  ghost predicate LastCellNames(defs: seq<ActionDef>, tables: seq<Table>, i: nat, default: string, path: string)
    requires |tables| == |defs|
  {
    || (path == default && NoCells(defs, tables, i))
    || exists k :: (
         && i <= k < |defs| && defs[k].final && CellAt(tables[k], 0, 0) == Some(Str(path))
         && NoCells(defs, tables, k + 1))
  }

  ghost predicate NoCells(defs: seq<ActionDef>, tables: seq<Table>, i: nat)
    requires |tables| == |defs|
  {
    forall m :: i <= m < |defs| && defs[m].final ==> CellAt(tables[m], 0, 0).None?
  }

  /**
   * A file function that finds its path or is refused has sent what a JSON function with the same actions sends, and
   * fails with the same text; the path is the first cell of the last final action that has one. It stops on a cell
   * that is not a string only when some final action has such a first cell, and never finds a path then.
   */
  lemma FileRunAgrees(server: Server, defs: seq<ActionDef>, i: nat, tables: seq<Table>, path: string, json: JsonObject,
                      log: seq<Event>)
    requires |tables| == |defs| && i <= |defs|
    ensures var file := FileRunFrom(server, defs, i, tables, path, log);
            var out := RunFrom(server, defs, i, tables, json, log);
            && |out.tables| == |defs|
            && file.0 <= out.log
            && (!file.1.NotAString? ==> file.0 == out.log)
            && (file.1.Refused? ==> out.failure == Some(file.1.text))
            && (file.1.PathFound? ==> out.failure.None? && LastCellNames(defs, out.tables, i, path, file.1.path))
            && (file.1.NotAString? ==>
                  exists k :: i <= k < |defs| && OddCell(defs[k], out.tables[k]))
            && (file.1.PathFound? ==>
                  forall k :: i <= k < |defs| ==> !OddCell(defs[k], out.tables[k]))
  {
    FileRunSends(server, defs, i, tables, path, json, log);
    if FileRunFrom(server, defs, i, tables, path, log).1.PathFound? {
      FileRunPath(server, defs, i, tables, path, json, log);
    }
  }

  /** The action is final, and its first cell is not a string. */
  predicate OddCell(def: ActionDef, table: Table) {
    def.final && match CellAt(table, 0, 0)
                 case Some(v) => !v.Str?
                 case None => false
  }

  /** What a file function sends, and when it stops on a cell that is not a string. */
  lemma {:induction false} FileRunSends(server: Server, defs: seq<ActionDef>, i: nat, tables: seq<Table>, path: string,
                                        json: JsonObject, log: seq<Event>)
    requires |tables| == |defs| && i <= |defs|
    ensures var file := FileRunFrom(server, defs, i, tables, path, log);
            var out := RunFrom(server, defs, i, tables, json, log);
            && |out.tables| == |defs|
            && file.0 <= out.log
            && (!file.1.NotAString? ==> file.0 == out.log)
            && (file.1.Refused? ==> out.failure == Some(file.1.text))
            && (file.1.PathFound? ==> out.failure.None?)
            && (file.1.NotAString? ==>
                  exists k :: i <= k < |defs| && OddCell(defs[k], out.tables[k]))
            && (file.1.PathFound? ==>
                  forall k :: i <= k < |defs| ==> !OddCell(defs[k], out.tables[k]))
    decreases |defs| - i
  {
    TablesKept(server, defs, i, tables, json, log);
    if i < |defs| {
      var run := RunAction(server, Ids(defs), tables, defs[i], log);
      if run.failure.None? {
        var json' := if defs[i].final then ActionJson(defs[i], run.rows) else json;
        var cell := FirstCell(defs[i], run.rows);
        if OddCell(defs[i], run.rows) {
          LogGrows(server, defs, i + 1, tables[i := run.rows], json', run.log);
        } else {
          FileRunSends(server, defs, i + 1, tables[i := run.rows],
                       if cell.Some? then cell.value.s else path, json', run.log);
        }
      }
    }
  }

  /** Which path a file function finds. */
  lemma {:induction false} FileRunPath(server: Server, defs: seq<ActionDef>, i: nat, tables: seq<Table>, path: string,
                                       json: JsonObject, log: seq<Event>)
    requires |tables| == |defs| && i <= |defs|
    requires FileRunFrom(server, defs, i, tables, path, log).1.PathFound?
    ensures var found := FileRunFrom(server, defs, i, tables, path, log).1.path;
            var out := RunFrom(server, defs, i, tables, json, log);
            |out.tables| == |defs| && LastCellNames(defs, out.tables, i, path, found)
    decreases |defs| - i
  {
    TablesKept(server, defs, i, tables, json, log);
    if i < |defs| {
      var run := RunAction(server, Ids(defs), tables, defs[i], log);
      var json' := if defs[i].final then ActionJson(defs[i], run.rows) else json;
      var cell := FirstCell(defs[i], run.rows);
      FileRunPath(server, defs, i + 1, tables[i := run.rows],
                  if cell.Some? then cell.value.s else path, json', run.log);
    }
  }

  lemma {:induction false} LogGrows(server: Server, defs: seq<ActionDef>, i: nat, tables: seq<Table>, json: JsonObject,
                                    log: seq<Event>)
    requires |tables| == |defs| && i <= |defs|
    ensures log <= RunFrom(server, defs, i, tables, json, log).log
    decreases |defs| - i
  {
    if i < |defs| {
      var run := RunAction(server, Ids(defs), tables, defs[i], log);
      assert log <= run.log;
      if run.failure.None? {
        LogGrows(server, defs, i + 1, tables[i := run.rows],
                 if defs[i].final then ActionJson(defs[i], run.rows) else json, run.log);
      }
    }
  }
}
