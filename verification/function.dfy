/** A function and its actions on shared objects (src/functions/function.cpp). */
module Functions {
  import opened Wrappers
  import opened Query
  import opened Json
  import opened Pipeline
  import opened Actions

  /** The actions are separate objects, as AddAction_ makes them; only value objects may be shared. */
  ghost predicate Separate(actions: seq<Action>) {
    && (forall i :: 0 <= i < |actions| ==> Distinct(actions[i].parameters))
    && (forall i, j :: 0 <= i < j < |actions| ==>
          && actions[i] != actions[j]
          && actions[i].results != actions[j].results
          && forall p :: p in actions[i].parameters ==> p !in actions[j].parameters)
  }

  /** The last of the parameters with the name. */
  function LastNamed(parameters: seq<Parameter>, name: string): (p: Option<Parameter>)
    ensures p.Some? ==> p.value in parameters && p.value.name == name
    ensures p.None? ==> forall q :: q in parameters ==> q.name != name
  {
    if parameters == [] then None
    else
      var last := |parameters| - 1;
      if parameters[last].name == name then Some(parameters[last]) else LastNamed(parameters[..last], name)
  }

  /** One object of a request's JSON array; its name and value may be missing. */
  datatype JsonEntry = JsonEntry(isObject: bool, name: Option<string>, value: Option<string>) {
    predicate Usable() {
      isObject && name.Some? && value.Some?
    }
  }

  /** The value of the last usable entry with the name. */
  function LastEntry(entries: seq<JsonEntry>, name: string): Option<string> {
    if entries == [] then None
    else
      var last := |entries| - 1;
      if entries[last].Usable() && entries[last].name == Some(name) then entries[last].value
      else LastEntry(entries[..last], name)
  }

  /** The last parameter of the name is the one that no other of the name follows. */
  lemma {:induction false} LastNamedIsLast(parameters: seq<Parameter>, name: string, k: nat)
    requires k < |parameters| && parameters[k].name == name
    requires forall m :: k < m < |parameters| ==> parameters[m].name != name
    ensures LastNamed(parameters, name) == Some(parameters[k])
  {
    var last := |parameters| - 1;
    if k < last {
      LastNamedIsLast(parameters[..last], name, k);
    }
  }

  /** An entry gives a value when it is an object with a name and a value, and no other such entry follows. */
  lemma {:induction false} LastEntryIsLast(entries: seq<JsonEntry>, name: string, k: nat, text: string)
    requires k < |entries| && entries[k] == JsonEntry(true, Some(name), Some(text))
    requires forall m :: k < m < |entries| && entries[m].isObject && entries[m].value.Some? ==>
               entries[m].name != Some(name)
    ensures LastEntry(entries, name) == Some(text)
  {
    var last := |entries| - 1;
    if k < last {
      LastEntryIsLast(entries[..last], name, k, text);
    }
  }

  /** Without such an entry there is no value. */
  lemma {:induction false} NoEntry(entries: seq<JsonEntry>, name: string)
    requires forall m :: 0 <= m < |entries| && entries[m].isObject && entries[m].value.Some? ==>
               entries[m].name != Some(name)
    ensures LastEntry(entries, name).None?
  {
    if entries != [] {
      NoEntry(entries[..|entries| - 1], name);
    }
  }

  /** A parameter after a request gave a value under its name. */
  function Requested(p: ParameterDef, given: Option<Value>): ParameterDef {
    if p.editable && given.Some? then p.(value := given.value) else p
  }

  /** The value a name has after a request: that of its last usable entry, or the one it had. */
  function GivenBy(entries: seq<JsonEntry>, prior: map<string, Value>, name: string): Option<Value> {
    match LastEntry(entries, name)
    case Some(text) => Some(Str(text))
    case None => if name in prior then Some(prior[name]) else None
  }

  /** An action whose parameters were given the values of a request. */
  function RequestedAction(def: ActionDef, entries: seq<JsonEntry>, prior: map<string, Value>): ActionDef {
    def.(parameters := seq(|def.parameters|, n requires 0 <= n < |def.parameters| =>
           Requested(def.parameters[n], GivenBy(entries, prior, def.parameters[n].name))))
  }

  function RequestedActions(defs: seq<ActionDef>, entries: seq<JsonEntry>, prior: map<string, Value>)
    : (asked: seq<ActionDef>)
    ensures |asked| == |defs|
  {
    seq(|defs|, k requires 0 <= k < |defs| => RequestedAction(defs[k], entries, prior))
  }

  /** The first n actions were given the values of a request, the rest are as before. */
  ghost predicate RequestedUpTo(n: nat, now: seq<ActionDef>, defs: seq<ActionDef>, entries: seq<JsonEntry>,
                                prior: map<string, Value>)
  {
    && |now| == |defs|
    && forall k :: 0 <= k < |defs| ==> now[k] == if k < n then RequestedAction(defs[k], entries, prior) else defs[k]
  }

  lemma RequestedNext(n: nat, now: seq<ActionDef>, defs: seq<ActionDef>, entries: seq<JsonEntry>,
                      prior: map<string, Value>)
    requires n < |defs| && RequestedUpTo(n, now, defs, entries, prior)
    ensures RequestedUpTo(n + 1, now[n := RequestedAction(now[n], entries, prior)], defs, entries, prior)
  {
  }

  lemma RequestedAll(now: seq<ActionDef>, defs: seq<ActionDef>, entries: seq<JsonEntry>, prior: map<string, Value>)
    requires RequestedUpTo(|defs|, now, defs, entries, prior)
    ensures now == RequestedActions(defs, entries, prior)
  {
  }

  /** The cell that a parameter of action j refers to, if there is one; the request has no say in it. */
  function ReferredCell(defs: seq<ActionDef>, final: seq<Table>, j: nat, source: Source): Option<Value>
    requires |final| == |defs|
  {
    match source
    case Own => None
    case Position(row, column, related) =>
      match FindAction(Ids(defs), related)
      case None => None
      case Some(k) => CellAt(if k < j then final[k] else defs[k].rows, row, column)
  }

  /**
   * From the entries of a request to the arguments of the statements: argument n of action j is the cell it refers to;
   * without one it is the text of the last usable entry under its name, if it is editable, or else what the function
   * had under the name; and a parameter that is not editable, or of which nobody knows, keeps its own value.
   */
  lemma RequestToArgument(defs: seq<ActionDef>, entries: seq<JsonEntry>, prior: map<string, Value>, final: seq<Table>,
                          j: nat, n: nat)
    requires |final| == |defs| && j < |defs| && n < |defs[j].parameters|
    ensures var p := defs[j].parameters[n];
            var args := Arguments(RequestedActions(defs, entries, prior), final, j);
            && |args| == |defs[j].parameters|
            && args[n] == match ReferredCell(defs, final, j, p.source)
                          case Some(v) => v
                          case None =>
                            if !p.editable then p.value
                            else match LastEntry(entries, p.name)
                                 case Some(text) => Str(text)
                                 case None => if p.name in prior then prior[p.name] else p.value
  {
    assert Ids(RequestedActions(defs, entries, prior)) == Ids(defs);
  }

  class Function {
    const actions: seq<Action>
    var parameters: seq<Parameter>
    const database: Database
    var error: bool
    var errorMessage: string

    constructor (actions: seq<Action>, parameters: seq<Parameter>, database: Database)
      ensures this.actions == actions && this.parameters == parameters && this.database == database
      ensures !error && errorMessage == "Unknown error."
    {
      this.actions, this.parameters, this.database := actions, parameters, database;
      error, errorMessage := false, "Unknown error.";
    }

    /** The actions with their results and their parameters: everything a run may change. */
    ghost function Objects(): (objects: set<object>)
      ensures forall a :: a in actions ==> a in objects && a.results in objects
      ensures forall a, p :: a in actions && p in a.parameters ==> p in objects
    {
      (set a: Action | a in actions) + (set a: Action | a in actions :: a.results)
      + (set a: Action, p: Parameter | a in actions && p in a.parameters :: p)
    }

    /**
     * Before action i runs: every action shows its table, and those from i on are as they were described.
     */
    ghost predicate Stage(defs: seq<ActionDef>, tables: seq<Table>, i: nat)
      reads *
    {
      && |actions| == |defs| == |tables|
      && (forall k :: 0 <= k < |actions| ==>
            actions[k].database == database && actions[k].Shows(defs[k].identifier, tables[k]))
      && (forall k :: i <= k < |actions| ==> actions[k].DescribedBy(defs[k]) && tables[k] == defs[k].rows)
    }

    /** Runs one action that can see all the others; its error text becomes the function's. */
    method ProcessAction(action: Action, ghost def: ActionDef, ghost ids: seq<string>, ghost tables: seq<Table>)
      returns (ok: bool)
      requires Distinct(action.parameters) && action.DescribedBy(def) && action.database == database
      requires action.results.Valid() && action.results.table == def.rows
      requires |actions| == |ids| == |tables| && forall k :: 0 <= k < |actions| ==> actions[k].Shows(ids[k], tables[k])
      modifies this, action, action.parameters, action.results, database
      ensures var run := RunAction(database.server, ids, tables, def, old(database.log));
              && database.log == run.log
              && action.Shows(def.identifier, run.rows)
              && (ok <==> run.failure.None?)
              && (ok ==> error == old(error) && errorMessage == old(errorMessage))
              && (ok ==> action.jsonResult == ActionJson(def, run.rows))
              && (!ok ==> error && errorMessage == run.failure.value)
      ensures forall d: DValue | old(allocated(d)) :: d.content == old(d.content)
    {
      action.container := actions;
      if action.error {
        error, errorMessage := true, action.customError;
        return false;
      }
      ok := action.Work(def, ids, tables);
      if !ok {
        error, errorMessage := true, action.customError;
      }
    }

    /** One round of the loop over the actions: the other actions show what they showed. */
    method ProcessShown(i: nat, ghost defs: seq<ActionDef>, ghost tables: seq<Table>) returns (ok: bool)
      requires i < |actions| && Separate(actions) && Stage(defs, tables, i)
      modifies this, actions[i], actions[i].parameters, actions[i].results, database
      ensures var run := RunAction(database.server, Ids(defs), tables, defs[i], old(database.log));
              && database.log == run.log
              && (forall k :: 0 <= k < |actions| ==> actions[k].Shows(defs[k].identifier, tables[i := run.rows][k]))
              && (ok <==> run.failure.None?)
              && (ok ==> error == old(error) && errorMessage == old(errorMessage))
              && (ok ==> actions[i].jsonResult == ActionJson(defs[i], run.rows))
              && (!ok ==> error && errorMessage == run.failure.value)
      ensures forall d: DValue | old(allocated(d)) :: d.content == old(d.content)
    {
      ok := ProcessAction(actions[i], defs[i], Ids(defs), tables);
      assert forall k :: 0 <= k < |actions| && k != i ==> actions[k].Shows(defs[k].identifier, tables[k]) by {
        assert forall k :: 0 <= k < |actions| && k != i ==> actions[k].results != actions[i].results;
      }
    }

    /** The same, and the later actions are as they were described. */
    method ProcessNext(i: nat, ghost defs: seq<ActionDef>, ghost tables: seq<Table>) returns (ok: bool)
      requires i < |actions| && Separate(actions) && Stage(defs, tables, i)
      modifies this, actions[i], actions[i].parameters, actions[i].results, database
      ensures var run := RunAction(database.server, Ids(defs), tables, defs[i], old(database.log));
              && database.log == run.log
              && Stage(defs, tables[i := run.rows], i + 1)
              && (ok <==> run.failure.None?)
              && (ok ==> error == old(error) && errorMessage == old(errorMessage))
              && (ok ==> actions[i].jsonResult == ActionJson(defs[i], run.rows))
              && (!ok ==> error && errorMessage == run.failure.value)
      ensures forall d: DValue | old(allocated(d)) :: d.content == old(d.content)
    {
      ok := ProcessShown(i, defs, tables);
      forall k | i < k < |actions|
        ensures actions[k].DescribedBy(defs[k])
      {
        assert old(actions[k].DescribedBy(defs[k]));
        forall m | 0 <= m < |actions[k].parameters|
          ensures actions[k].parameters[m].Matches(defs[k].parameters[m])
        {
          assert actions[k].parameters[m] in actions[k].parameters;
          assert old(actions[k].parameters[m].Matches(defs[k].parameters[m]));
        }
      }
    }

    /** One round of the loop of ProcessJSON: one step of the run over copies. */
    method RunNext(i: nat, json: JsonObject, ghost defs: seq<ActionDef>, ghost tables: seq<Table>)
      returns (ok: bool, result: JsonObject, ghost next: seq<Table>)
      requires i < |actions| && Separate(actions) && Stage(defs, tables, i)
      modifies this, actions[i], actions[i].parameters, actions[i].results, database
      ensures Stage(defs, next, i + 1)
      ensures RunFrom(database.server, defs, i, tables, json, old(database.log))
              == if ok then RunFrom(database.server, defs, i + 1, next, result, database.log)
                 else Outcome(database.log, next, result, Some(errorMessage))
      ensures if ok then error == old(error) && errorMessage == old(errorMessage) else error
      ensures forall d: DValue | old(allocated(d)) :: d.content == old(d.content)
    {
      next := tables[i := RunAction(database.server, Ids(defs), tables, defs[i], database.log).rows];
      result := json;
      ok := ProcessNext(i, defs, tables);
      if !ok {
        error := true;
      } else if actions[i].final {
        result := actions[i].jsonResult;
      }
    }

    /**
     * Runs the actions in order and stops at the first that fails. On the shared objects this has the outcome of the
     * run over copies: the same requests to the server, the same tables, the same JSON and the same error text; and
     * no value object that existed before is written to.
     */
    method ProcessJSON(json: JsonObject, ghost defs: seq<ActionDef>) returns (ok: bool, result: JsonObject)
      requires Separate(actions) && Stage(defs, Prior(defs), 0)
      modifies this, database, Objects()
      ensures var out := Run(database.server, defs, json, old(database.log));
              && database.log == out.log
              && result == out.json
              && |out.tables| == |actions|
              && (forall k :: 0 <= k < |actions| ==> actions[k].Shows(defs[k].identifier, out.tables[k]))
              && (ok <==> out.failure.None?)
              && (ok ==> error == old(error) && errorMessage == old(errorMessage))
              && (!ok ==> error && errorMessage == out.failure.value)
      ensures forall d: DValue | old(allocated(d)) :: d.content == old(d.content)
    {
      result := json;
      ghost var tables := Prior(defs);
      ghost var out := Run(database.server, defs, json, database.log);
      for i := 0 to |actions|
        invariant Stage(defs, tables, i)
        invariant error == old(error) && errorMessage == old(errorMessage)
        invariant out == RunFrom(database.server, defs, i, tables, result, database.log)
        invariant forall d: DValue | old(allocated(d)) :: d.content == old(d.content)
      {
        assert actions[i] in actions;
        ok, result, tables := RunNext(i, result, defs, tables);
        if !ok { return; }
      }
      ok := true;
    }

    /** The first cell of a final action's results, if there is one. */
    method FinalCell(action: Action, ghost rows: Table) returns (cell: Option<Value>)
      requires action.results.Valid() && action.results.table == rows
      ensures cell == if action.final then CellAt(rows, 0, 0) else None
    {
      if !action.final { return None; }
      var field := action.results.ExtractField(0, 0);
      cell := if field.isNull then None else Some(field.value.content);
    }

    /** One round of the loop of ProcessFile: one step of the run over copies, which may be the last. */
    method FileNext(i: nat, path: string, ghost defs: seq<ActionDef>, ghost tables: seq<Table>)
      returns (ending: Option<FileEnding>, path': string, ghost next: seq<Table>)
      requires i < |actions| && Separate(actions) && Stage(defs, tables, i)
      modifies this, actions[i], actions[i].parameters, actions[i].results, database
      ensures Stage(defs, next, i + 1)
      ensures FileRunFrom(database.server, defs, i, tables, path, old(database.log))
              == match ending
                 case None => FileRunFrom(database.server, defs, i + 1, next, path', database.log)
                 case Some(e) => (database.log, e)
      ensures if ending.Some? && ending.value.Refused? then error && errorMessage == ending.value.text
              else error == old(error) && errorMessage == old(errorMessage)
      ensures forall d: DValue | old(allocated(d)) :: d.content == old(d.content)
    {
      ghost var run := RunAction(database.server, Ids(defs), tables, defs[i], database.log);
      next := tables[i := run.rows];
      ending, path' := None, path;
      var ok := ProcessNext(i, defs, tables);
      if !ok {
        error := true;
        return Some(Refused(errorMessage)), path', next;
      }
      var cell := FinalCell(actions[i], run.rows);
      if cell.Some? {
        if !cell.value.Str? { return Some(NotAString), path', next; }
        path' := cell.value.s;
      }
    }

    /** Runs the actions of a file function; the first cell of a final action names the file. */
    method ProcessFile(filepath: string, ghost defs: seq<ActionDef>) returns (ending: FileEnding)
      requires Separate(actions) && Stage(defs, Prior(defs), 0)
      modifies this, database, Objects()
      ensures (database.log, ending) == FileRun(database.server, defs, filepath, old(database.log))
      ensures ending.Refused? ==> error && errorMessage == ending.text
      ensures !ending.Refused? ==> error == old(error) && errorMessage == old(errorMessage)
      ensures forall d: DValue | old(allocated(d)) :: d.content == old(d.content)
    {
      var path := filepath;
      ghost var tables := Prior(defs);
      ghost var out := FileRun(database.server, defs, filepath, database.log);
      for i := 0 to |actions|
        invariant Stage(defs, tables, i)
        invariant error == old(error) && errorMessage == old(errorMessage)
        invariant out == FileRunFrom(database.server, defs, i, tables, path, database.log)
        invariant forall d: DValue | old(allocated(d)) :: d.content == old(d.content)
      {
        assert actions[i] in actions;
        var stop;
        stop, path, tables := FileNext(i, path, defs, tables);
        if stop.Some? { return stop.value; }
      }
      ending := PathFound(path);
    }

    /** The value a request gives under a name: that of the last parameter of the function with the name. */
    function Given(name: string): Option<Value>
      reads this, parameters, set p | p in parameters :: p.value
    {
      match LastNamed(parameters, name)
      case Some(p) => Some(p.value.content)
      case None => None
    }

    /**
     * Adds an editable parameter for every usable entry of a request's JSON array. A name is then given the value of
     * its last usable entry; a name without one keeps what it had.
     */
    method AddRequestParameters(entries: seq<JsonEntry>)
      modifies this`parameters
      ensures |old(parameters)| <= |parameters| && parameters[..|old(parameters)|] == old(parameters)
      ensures forall n :: |old(parameters)| <= n < |parameters| ==> fresh(parameters[n]) && parameters[n].editable
      ensures forall name :: Given(name) == match LastEntry(entries, name)
                                            case Some(v) => Some(Str(v))
                                            case None => old(Given(name))
    {
      for i := 0 to |entries|
        invariant |old(parameters)| <= |parameters| && parameters[..|old(parameters)|] == old(parameters)
        invariant forall n :: |old(parameters)| <= n < |parameters| ==> fresh(parameters[n]) && parameters[n].editable
        invariant forall name :: Given(name) == match LastEntry(entries[..i], name)
                                                case Some(v) => Some(Str(v))
                                                case None => old(Given(name))
      {
        assert entries[..i + 1][..i] == entries[..i];
        if entries[i].Usable() {
          AddParameter(entries[i].name.value, entries[i].value.value);
        }
      }
      assert entries[..|entries|] == entries;
    }

    method AddParameter(name: string, text: string)
      modifies this`parameters
      ensures |parameters| == |old(parameters)| + 1 && parameters[..|old(parameters)|] == old(parameters)
      ensures fresh(parameters[|old(parameters)|]) && parameters[|old(parameters)|].editable
      ensures forall other :: Given(other) == if other == name then Some(Str(text)) else old(Given(other))
    {
      var value := new DValue(Str(text));
      var p := new Parameter.WithValue(name, value, true, None);
      ghost var before := parameters;
      parameters := parameters + [p];
      assert parameters[..|before|] == before;
    }

    /**
     * Points every editable parameter of the action at the value of the last parameter of the function with the same
     * name. Values are shared, not copied; for the run that follows this is the same as copying them.
     */
    method IdentifyParameters(action: Action, ghost defs: seq<ParameterDef>)
      requires Distinct(action.parameters) && forall p :: p in action.parameters ==> p !in parameters
      requires action.MatchFrom(0, defs)
      modifies action.parameters
      ensures forall p :: p in action.parameters ==>
                p.value == if p.editable && LastNamed(parameters, p.name).Some?
                           then LastNamed(parameters, p.name).value.value else old(p.value)
      ensures forall n :: 0 <= n < |defs| ==>
                var given := Given(defs[n].name);
                action.parameters[n].Matches(Requested(defs[n], given))
    {
      for n := 0 to |action.parameters|
        invariant forall m :: 0 <= m < |defs| ==> action.parameters[m].error == defs[m].error
        invariant forall m :: n <= m < |defs| ==> action.parameters[m].value == old(action.parameters[m].value)
        invariant forall m :: 0 <= m < n ==>
                    var p := action.parameters[m];
                    p.value == if p.editable && LastNamed(parameters, p.name).Some?
                               then LastNamed(parameters, p.name).value.value else old(p.value)
      {
        IdentifyParameter(action.parameters[n]);
      }
      forall n | 0 <= n < |defs|
        ensures var given := Given(defs[n].name);
                action.parameters[n].Matches(Requested(defs[n], given))
      {
        assert old(action.parameters[n].Matches(defs[n]));
      }
    }

    /** The inner loop: every parameter of the function with the name overwrites the one before it. */
    method IdentifyParameter(p: Parameter)
      requires p !in parameters
      modifies p`value
      ensures p.value == if p.editable && LastNamed(parameters, p.name).Some?
                         then LastNamed(parameters, p.name).value.value else old(p.value)
    {
      for j := 0 to |parameters|
        invariant p.value == if p.editable && LastNamed(parameters[..j], p.name).Some?
                             then LastNamed(parameters[..j], p.name).value.value else old(p.value)
      {
        assert parameters[..j + 1][..j] == parameters[..j];
        if parameters[j].name == p.name && p.editable {
          p.value := parameters[j].value;
        }
      }
      assert parameters[..|parameters|] == parameters;
    }

    /** The function's own parameters are those of the map, by name, and none of them is a parameter of an action. */
    ghost predicate Provides(prior: map<string, Value>)
      reads this, parameters, set p | p in parameters :: p.value
    {
      && (forall name :: Given(name) == if name in prior then Some(prior[name]) else None)
      && (forall a, p :: a in actions && p in a.parameters ==> p !in parameters)
    }

    /** Before a run all actions are as they were described. */
    ghost predicate AllAs(defs: seq<ActionDef>)
      reads *
    {
      && |actions| == |defs|
      && forall k :: 0 <= k < |actions| ==> actions[k].database == database && actions[k].IsAs(defs[k])
    }

    lemma AllAsIsStage(defs: seq<ActionDef>)
      ensures AllAs(defs) <==> Stage(defs, Prior(defs), 0)
    {
    }

    /** The parameters of one action are pointed at the values; the action is otherwise as before. */
    method IdentifyAction(action: Action, ghost def: ActionDef, ghost entries: seq<JsonEntry>,
                          ghost prior: map<string, Value>)
      requires Distinct(action.parameters) && action.IsAs(def)
      requires forall p :: p in action.parameters ==> p !in parameters
      requires forall name :: Given(name) == GivenBy(entries, prior, name)
      modifies action.parameters
      ensures action.IsAs(RequestedAction(def, entries, prior))
      ensures forall name :: Given(name) == GivenBy(entries, prior, name)
    {
      ghost var asked := RequestedAction(def, entries, prior);
      IdentifyParameters(action, def.parameters);
      forall n | 0 <= n < |def.parameters|
        ensures action.parameters[n].Matches(asked.parameters[n])
      {
        assert Given(def.parameters[n].name) == GivenBy(entries, prior, def.parameters[n].name);
      }
    }

    /** One round of the loop over the actions. */
    method IdentifyNext(i: nat, ghost defs: seq<ActionDef>, ghost entries: seq<JsonEntry>,
                        ghost prior: map<string, Value>)
      requires i < |actions| && Separate(actions) && AllAs(defs)
      requires forall p :: p in actions[i].parameters ==> p !in parameters
      requires forall name :: Given(name) == GivenBy(entries, prior, name)
      modifies actions[i].parameters
      ensures AllAs(defs[i := RequestedAction(defs[i], entries, prior)])
      ensures forall name :: Given(name) == GivenBy(entries, prior, name)
    {
      IdentifyAction(actions[i], defs[i], entries, prior);
      forall k | 0 <= k < |actions| && k != i
        ensures actions[k].IsAs(defs[k])
      {
        assert old(actions[k].IsAs(defs[k]));
        forall m | 0 <= m < |actions[k].parameters|
          ensures actions[k].parameters[m].Matches(defs[k].parameters[m])
        {
          assert actions[k].parameters[m] in actions[k].parameters;
          assert old(actions[k].parameters[m].Matches(defs[k].parameters[m]));
        }
      }
    }

    /** Reading the entries of a request changes nothing about the actions. */
    method ReadRequest(entries: seq<JsonEntry>, ghost defs: seq<ActionDef>, ghost prior: map<string, Value>)
      requires AllAs(defs) && Provides(prior)
      modifies this`parameters
      ensures AllAs(defs)
      ensures forall name :: Given(name) == GivenBy(entries, prior, name)
      ensures forall a, p :: a in actions && p in a.parameters ==> p !in parameters
    {
      AddRequestParameters(entries);
      forall k | 0 <= k < |actions|
        ensures actions[k].IsAs(defs[k])
      {
        assert old(actions[k].IsAs(defs[k]));
      }
      forall a, p | a in actions && p in a.parameters
        ensures p !in parameters
      {
        assert p !in old(parameters);
        forall n | 0 <= n < |parameters|
          ensures parameters[n] != p
        {
          if n < |old(parameters)| {
            assert parameters[n] == old(parameters)[n];
          }
        }
      }
    }

    /** The loop over the actions. */
    method IdentifyAll(ghost defs: seq<ActionDef>, ghost entries: seq<JsonEntry>, ghost prior: map<string, Value>)
      requires Separate(actions) && AllAs(defs)
      requires forall a, p :: a in actions && p in a.parameters ==> p !in parameters
      requires forall name :: Given(name) == GivenBy(entries, prior, name)
      modifies Objects()
      ensures AllAs(RequestedActions(defs, entries, prior))
    {
      ghost var now := defs;
      for i := 0 to |actions|
        invariant AllAs(now) && RequestedUpTo(i, now, defs, entries, prior)
        invariant unchanged(this)
        invariant forall name :: Given(name) == GivenBy(entries, prior, name)
      {
        assert actions[i] in actions;
        IdentifyNext(i, now, entries, prior);
        RequestedNext(i, now, defs, entries, prior);
        now := now[i := RequestedAction(now[i], entries, prior)];
      }
      RequestedAll(now, defs, entries, prior);
    }

    /**
     * Reads the entries of a request and points the parameters of all actions at the values: what follows is a run of
     * the actions with the requested values.
     */
    method IdentifyRequest(entries: seq<JsonEntry>, ghost defs: seq<ActionDef>, ghost prior: map<string, Value>)
      requires Separate(actions) && AllAs(defs) && Provides(prior)
      modifies this`parameters, Objects()
      ensures AllAs(RequestedActions(defs, entries, prior))
    {
      ReadRequest(entries, defs, prior);
      IdentifyAll(defs, entries, prior);
    }
  }
}
