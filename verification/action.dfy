/** Actions as they run on shared, mutable objects (src/functions/action.cpp, src/query/parameter.cpp). */
module Actions {
  import opened Wrappers
  import opened Query
  import opened Json
  import opened Pipeline

  /** The database server behind an action, with everything that was sent to it. */
  class Database {
    const server: Server
    var log: seq<Event>

    constructor (server: Server)
      ensures this.server == server && log == []
    {
      this.server, log := server, [];
    }

    method Send(event: Event) returns (reply: Reply)
      modifies this
      ensures log == old(log) + [event] && reply == server(log)
    {
      log := log + [event];
      reply := server(log);
    }
  }

  class Parameter {
    const source: Source
    const name: string
    const editable: bool
    const condition: Option<ParameterCondition>
    var value: DValue
    var error: string

    /** A parameter with its own value. */
    constructor WithValue(name: string, value: DValue, editable: bool, condition: Option<ParameterCondition>)
      ensures Matches(ParameterDef(Own, name, "", value.content, condition, editable))
      ensures this.value == value
    {
      this.source, this.name, this.editable, this.condition := Own, name, editable, condition;
      this.value, this.error := value, "";
    }

    /** A parameter that refers to a cell of another action; until then its value is empty. */
    constructor WithPosition(name: string, row: nat, column: nat, relatedAction: string, editable: bool,
                             condition: Option<ParameterCondition>)
      ensures Matches(ParameterDef(Position(row, column, relatedAction), name, "", Empty, condition, editable))
      ensures fresh(value)
    {
      this.source, this.name, this.editable := Position(row, column, relatedAction), name, editable;
      this.condition, this.error := condition, "";
      this.value := new DValue(Empty);
    }

    ghost predicate Matches(def: ParameterDef)
      reads this, value
    {
      && source == def.source && name == def.name && condition == def.condition
      && error == def.error && value.content == def.value && editable == def.editable
    }
  }

  /** What a statement holds for one placeholder: NULL, or a reference to the shared value. */
  datatype Binding = Null | Shared(value: DValue)

  /** The arguments a statement would send now: references are read when it executes. */
  function Argument(b: Binding): Value
    reads if b.Shared? then {b.value} else {}
  {
    match b
    case Null => Empty
    case Shared(value) => value.content
  }

  function ReadArguments(bindings: seq<Binding>): (args: seq<Value>)
    reads set b | b in bindings && b.Shared? :: b.value
    ensures Holds(bindings, args)
  {
    if bindings == [] then []
    else
      var last := |bindings| - 1;
      ReadArguments(bindings[..last]) + [Argument(bindings[last])]
  }

  ghost predicate Holds(bindings: seq<Binding>, args: seq<Value>)
    reads set b | b in bindings && b.Shared? :: b.value
  {
    && |bindings| == |args|
    && forall n :: 0 <= n < |bindings| ==> Argument(bindings[n]) == args[n]
  }

  predicate Distinct<T(==)>(s: seq<T>) {
    forall i, j :: 0 <= i < j < |s| ==> s[i] != s[j]
  }

  class Action {
    const identifier: string
    const sqlCode: string
    const parameters: seq<Parameter>
    const condition: Option<ActionCondition>
    const final: bool
    const status: string
    const message: string
    const results: Results
    const database: Database
    var customError: string
    var error: bool
    var jsonResult: JsonObject
    var container: seq<Action>
    var queryText: string
    var bindings: seq<Binding>
    var fetched: Reply
    var lastInsertId: int

    constructor (identifier: string, sqlCode: string, parameters: seq<Parameter>, condition: Option<ActionCondition>,
                 final: bool, customError: string, database: Database)
      ensures this.identifier == identifier && this.sqlCode == sqlCode && this.parameters == parameters
      ensures this.condition == condition && this.final == final && this.database == database
      ensures status == "OK." && message == "OK." && this.customError == customError
      ensures !error && jsonResult == EMPTY_OBJECT && container == [] && lastInsertId == 0
      ensures fresh(results) && results.Valid() && results.table == []
      ensures forall defs :: MatchFrom(0, defs) ==>
                DescribedBy(ActionDef(identifier, sqlCode, defs, condition, final, customError, "OK.", "OK.", false,
                                      []))
    {
      this.identifier, this.sqlCode, this.parameters, this.condition := identifier, sqlCode, parameters, condition;
      this.final, this.customError, this.database := final, customError, database;
      status, message := "OK.", "OK.";
      error, jsonResult, container, bindings, lastInsertId := false, EMPTY_OBJECT, [], [], 0;
      queryText, fetched := "", Failed;
      results := new Results();
    }

    /** The action, its parameters and the values they point at are those of the definition. */
    ghost predicate DescribedBy(def: ActionDef)
      reads this, parameters, set p | p in parameters :: p.value
    {
      && identifier == def.identifier && sqlCode == def.sql && condition == def.condition && final == def.final
      && customError == def.customError && status == def.status && message == def.message && error == def.error
      && MatchFrom(0, def.parameters)
    }

    /** The parameters from the n-th on still are those of the definition. */
    ghost predicate MatchFrom(n: nat, defs: seq<ParameterDef>)
      reads parameters, set p | p in parameters :: p.value
    {
      && |parameters| == |defs|
      && forall m :: n <= m < |parameters| ==> parameters[m].Matches(defs[m])
    }

    /** The action has the identifier and its results show the table. */
    ghost predicate Shows(id: string, table: Table)
      reads results, set r, f | r in results.rows && f in r :: f.value
    {
      identifier == id && results.Valid() && results.table == table
    }

    /** The action is as it was described, with the rows it already has. */
    ghost predicate IsAs(def: ActionDef)
      reads this, parameters, set p | p in parameters :: p.value
      reads results, set r, f | r in results.rows && f in r :: f.value
    {
      DescribedBy(def) && Shows(def.identifier, def.rows)
    }

    /** The actions this action can see, with their identifiers and the tables of their results. */
    ghost predicate Sees(ids: seq<string>, tables: seq<Table>)
      reads this, container, set a | a in container :: a.results
      reads set a, r, f | a in container && r in a.results.rows && f in r :: f.value
    {
      && |container| == |ids| == |tables|
      && forall k :: 0 <= k < |container| ==> container[k].Shows(ids[k], tables[k])
    }

    /** Points the first parameter of the same name at the value of the other one, if it is editable. */
    method ReplaceParameter(parameter: Parameter)
      requires Distinct(parameters)
      modifies parameters
      ensures forall n :: 0 <= n < |parameters| ==>
                && parameters[n].error == old(parameters[n].error)
                && parameters[n].value ==
                     if parameters[n].name == parameter.name && parameters[n].editable
                        && (forall m :: 0 <= m < n ==> parameters[m].name != parameter.name)
                     then old(parameter.value) else old(parameters[n].value)
    {
      for k := 0 to |parameters|
        invariant forall m :: 0 <= m < k ==> parameters[m].name != parameter.name
        invariant forall p :: p in parameters ==> unchanged(p)
      {
        if parameters[k].name == parameter.name {
          if !parameters[k].editable { return; }
          parameters[k].value := parameter.value;
          return;
        }
      }
    }

    /** The value object a position names: that of the cell of the first action with the identifier. */
    ghost function Named(ids: seq<string>, source: Source): (d: Option<DValue>)
      reads this, container, set a | a in container :: a.results
      requires |container| == |ids|
    {
      match source
      case Own => None
      case Position(row, column, related) =>
        match FindAction(ids, related)
        case None => None
        case Some(k) =>
          var rows := container[k].results.rows;
          if row < |rows| && column < |rows[row]| && !rows[row][column].isNull then Some(rows[row][column].value)
          else None
    }

    /** Points a positional parameter at the value object of the cell it names, if there is one. */
    method SetupPositionParameter(p: Parameter, ghost def: ParameterDef, ghost ids: seq<string>,
                                  ghost tables: seq<Table>)
      requires Sees(ids, tables) && p.Matches(def)
      modifies p`value
      ensures p.value.content == Resolve(ids, tables, def)
      ensures p.value == match Named(ids, p.source)
                         case Some(d) => d
                         case None => old(p.value)
      ensures forall d: DValue | old(allocated(d)) :: d.content == old(d.content)
    {
      if p.source.Position? {
        var k := 0;
        while k < |container| && container[k].identifier != p.source.relatedAction
          invariant 0 <= k <= |container|
          invariant forall m :: 0 <= m < k ==> ids[m] != p.source.relatedAction
        {
          k := k + 1;
        }
        ghost var found := FindAction(ids, p.source.relatedAction);
        if k < |container| {
          assert ids[k] == p.source.relatedAction;
          assert found == Some(k) by { OnlyFirst(ids, p.source.relatedAction, k); }
          var field := container[k].results.ExtractField(p.source.row, p.source.column);
          if !field.isNull {
            p.value := field.value;
          }
        } else {
          assert p.source.relatedAction !in ids;
        }
      }
    }

    /** Calls the parameter's condition on its current value; false when an error condition fails. */
    method VerifyParameterCondition(p: Parameter, ghost def: ParameterDef) returns (ok: bool)
      requires p.condition == def.condition && p.name == def.name && p.error == def.error
      modifies p`error, this`error, this`customError
      ensures ok <==> p.condition.None? || p.condition.value.severity.Warning?
                      || p.condition.value.functor(p.value.content).holds
      ensures ok <==> Accepts(def, p.value.content)
      ensures p.error == ErrorAfter(def, p.value.content)
      ensures p.error == match p.condition
                         case None => old(p.error)
                         case Some(c) =>
                           match c.functor(p.value.content).error
                           case Some(text) => text
                           case None => old(p.error)
      ensures ok ==> error == old(error) && customError == old(customError)
      ensures !ok ==> error && customError == RejectionText(def, p.value.content)
      ensures !ok ==> customError == if p.error != "" then p.error else
                "Parameter condition error (Identifier: " + p.condition.value.identifier
                + ", Parameter name: " + p.name + ")."
    {
      ok := true;
      if p.condition.None? { return; }
      var condition := p.condition.value;
      var verdict := condition.functor(p.value.content);
      if verdict.error.Some? {
        p.error := verdict.error.value;
      }
      if !verdict.holds && condition.severity.Error? {
        customError := if p.error == "" then ParameterText(condition.identifier, p.name) else p.error;
        error, ok := true, false;
      }
    }

    /**
     * Opens a session and binds the parameters in order. It returns false exactly when the action is in error
     * afterwards; a failed session leaves the preset error text, a failed condition puts its own.
     */
    method ComposeQuery(ghost ids: seq<string>, ghost tables: seq<Table>, ghost defs: seq<ParameterDef>)
      returns (ok: bool)
      requires Sees(ids, tables) && Distinct(parameters) && MatchFrom(0, defs)
      modifies this`error, this`customError, this`queryText, this`bindings, parameters, database
      ensures ok <==> !error
      ensures old(error) ==> error && database.log == old(database.log) && customError == old(customError)
      ensures !old(error) ==>
                && database.log == old(database.log) + [Connect]
                && if database.server(database.log).Failed? then error && customError == old(customError)
                   else match Compose(ids, tables, defs)
                        case Rejected(text) => error && customError == text
                        case Bound(args) =>
                          !error && customError == old(customError) && queryText == sqlCode && Holds(bindings, args)
      ensures forall d: DValue | old(allocated(d)) :: d.content == old(d.content)
    {
      if error { return false; }
      var reply := database.Send(Connect);
      if reply.Failed? {
        error := true;
        return false;
      }
      queryText := sqlCode;
      ok := BindParameters(ids, tables, defs);
    }

    /** One parameter: look it up, verify its condition, bind it. */
    method BindParameter(p: Parameter, ghost def: ParameterDef, ghost ids: seq<string>, ghost tables: seq<Table>,
                         ghost args: seq<Value>)
      returns (accepted: bool, ghost v: Value)
      requires Sees(ids, tables) && p.Matches(def) && !error && Holds(bindings, args)
      modifies this`error, this`customError, this`bindings, p
      ensures v == Resolve(ids, tables, def) && accepted == Accepts(def, v)
      ensures accepted ==> !error && customError == old(customError) && Holds(bindings, args + [v])
      ensures !accepted ==> error && customError == RejectionText(def, v)
      ensures forall d: DValue | old(allocated(d)) :: d.content == old(d.content)
    {
      SetupPositionParameter(p, def, ids, tables);
      v := p.value.content;
      accepted := VerifyParameterCondition(p, def);
      if accepted {
        bindings := bindings + [if p.value.content.Empty? then Null else Shared(p.value)];
      }
    }

    /** One round of the loop: the parameters that follow stay as they were described. */
    method BindNext(n: nat, ghost ids: seq<string>, ghost tables: seq<Table>, ghost defs: seq<ParameterDef>,
                    ghost args: seq<Value>)
      returns (accepted: bool, ghost v: Value)
      requires Sees(ids, tables) && Distinct(parameters) && MatchFrom(n, defs) && n < |parameters|
      requires !error && Holds(bindings, args)
      modifies this`error, this`customError, this`bindings, parameters[n]
      ensures Sees(ids, tables) && MatchFrom(n + 1, defs)
      ensures v == Resolve(ids, tables, defs[n]) && accepted == Accepts(defs[n], v)
      ensures accepted ==> !error && customError == old(customError) && Holds(bindings, args + [v])
      ensures !accepted ==> error && customError == RejectionText(defs[n], v)
      ensures forall d: DValue | old(allocated(d)) :: d.content == old(d.content)
    {
      accepted, v := BindParameter(parameters[n], defs[n], ids, tables, args);
    }

    /** The loop over the parameters. */
    method BindParameters(ghost ids: seq<string>, ghost tables: seq<Table>, ghost defs: seq<ParameterDef>)
      returns (ok: bool)
      requires Sees(ids, tables) && Distinct(parameters) && MatchFrom(0, defs) && !error
      modifies this`error, this`customError, this`bindings, parameters
      ensures ok <==> !error
      ensures match Compose(ids, tables, defs)
              case Rejected(text) => error && customError == text
              case Bound(args) => !error && customError == old(customError) && Holds(bindings, args)
      ensures forall d: DValue | old(allocated(d)) :: d.content == old(d.content)
    {
      bindings := [];
      ghost var args: seq<Value> := [];
      for n := 0 to |parameters|
        invariant Sees(ids, tables) && MatchFrom(n, defs)
        invariant !error && customError == old(customError)
        invariant Holds(bindings, args)
        invariant Compose(ids, tables, defs) == ComposeFrom(ids, tables, defs, n, args)
        invariant forall d: DValue | old(allocated(d)) :: d.content == old(d.content)
      {
        var accepted, v := BindNext(n, ids, tables, defs, args);
        if !accepted { return false; }
        args := args + [v];
      }
      ok := true;
    }

    /** Sends the statement with the arguments its bindings refer to at this moment. */
    method ExecuteQuery(ghost args: seq<Value>)
      requires Holds(bindings, args)
      modifies this`error, this`fetched, database
      ensures old(error) ==> error && database.log == old(database.log)
      ensures !old(error) ==>
                && database.log == old(database.log) + [Execute(queryText, args)]
                && fetched == database.server(database.log)
                && error == fetched.Failed?
    {
      if error { return; }
      var now := ReadArguments(bindings);
      assert now == args;
      fetched := database.Send(Execute(queryText, now));
      if fetched.Failed? {
        error := true;
      }
    }

    /** Every field of the rows from the n-th on has a value object that did not exist before. */
    twostate predicate NewFrom(new rows: seq<seq<Field>>, n: nat) {
      forall i, f :: n <= i < |rows| && f in rows[i] ==> fresh(f.value)
    }

    /** Appends the fetched rows to the results; an exception while reading leaves the rows read so far. */
    method MakeResults()
      requires !error && fetched.Fetched? && results.Valid()
      modifies this`error, results
      ensures results.Valid() && results.table == old(results.table) + fetched.rows
      ensures old(results.rows) <= results.rows && NewFrom(results.rows, |old(results.rows)|)
      ensures error == !fetched.complete
      ensures forall d: DValue | old(allocated(d)) :: d.content == old(d.content)
    {
      for i := 0 to |fetched.rows|
        invariant results.Valid() && results.table == old(results.table) + fetched.rows[..i]
        invariant old(results.rows) <= results.rows && NewFrom(results.rows, |old(results.rows)|)
        invariant forall d: DValue | old(allocated(d)) :: d.content == old(d.content)
        modifies results
      {
        results.PushRow(fetched.rows[i]);
        assert fetched.rows[..i + 1] == fetched.rows[..i] + [fetched.rows[i]];
      }
      assert fetched.rows[..|fetched.rows|] == fetched.rows;
      error := !fetched.complete;
    }

    /** Asks for the id of the last inserted row and keeps it when it is an integer. */
    method GetLastInsertID()
      requires !error
      modifies this`error, this`queryText, this`bindings, this`fetched, this`lastInsertId, database
      ensures database.log == old(database.log) + [LAST_INSERT_ID]
      ensures var reply := database.server(database.log);
              && error == (reply.Failed? || !reply.complete)
              && (!error ==> lastInsertId == match CellAt(reply.rows, 0, 0)
                                             case Some(Int(id)) => id
                                             case _ => old(lastInsertId))
      ensures forall d: DValue | old(allocated(d)) :: d.content == old(d.content)
    {
      queryText, bindings := "SELECT LAST_INSERT_ID()", [];
      ExecuteQuery([]);
      if error { return; }
      var rows := new Results();
      for i := 0 to |fetched.rows|
        invariant fresh(rows) && rows.Valid() && rows.table == fetched.rows[..i]
        invariant forall d: DValue | old(allocated(d)) :: d.content == old(d.content)
        modifies rows
      {
        rows.PushRow(fetched.rows[i]);
      }
      if !fetched.complete {
        error := true;
        return;
      }
      assert rows.table == fetched.rows;
      var id := rows.ExtractField(0, 0);
      if !id.isNull && id.value.content.Int? {
        lastInsertId := id.value.content.i;
      }
    }

    /** The action's own condition on its results. */
    method VerifyCondition(ghost def: ActionDef) returns (ok: bool)
      requires identifier == def.identifier && condition == def.condition && customError == def.customError
      requires results.Valid() && !error
      modifies this`error, this`customError
      ensures ok <==> !error
      ensures ok <==> condition.None? || condition.value.severity.Warning? || condition.value.functor(results.table)
      ensures ok <==> ActionHolds(def, results.table)
      ensures customError == if ok then old(customError) else ActionRejection(def)
      ensures !ok ==> customError == if old(customError) != "" then old(customError) else
                "Action condition error (Identifier: " + condition.value.identifier + ", Action: " + identifier + ")."
    {
      ok := true;
      if condition.None? { return; }
      var table := results.Read();
      if !condition.value.functor(table) && condition.value.severity.Error? {
        if customError == "" {
          customError := ActionText(condition.value.identifier, identifier);
        }
        error, ok := true, false;
      }
    }

    /** The JSON members of one row, set in the order of the fields. */
    method RowMembers(fields: seq<Field>, ghost cells: seq<Cell>) returns (members: map<string, JsonValue>)
      requires ShowsRow(fields, cells)
      ensures members == RowObject(cells)
    {
      members := map[];
      for j := 0 to |fields|
        invariant members == RowObject(cells[..j])
      {
        assert cells[..j + 1][..j] == cells[..j];
        members := members[fields[j].column := ToJson(fields[j].value.content)];
      }
      assert cells[..|fields|] == cells;
    }

    /** The columns of the first row and one object for every row. */
    method CreateJSONResult() returns (json: JsonObject)
      requires results.Valid()
      ensures json == if error then EMPTY_OBJECT else JsonObject(Some(TableJson(results.table)), None, None)
    {
      if error { return EMPTY_OBJECT; }
      var columns: seq<string> := [];
      if |results.rows| > 0 {
        assert ShowsRow(results.rows[0], results.table[0]);
        for j := 0 to |results.rows[0]|
          invariant columns == Columns(results.table[0])[..j]
        {
          columns := columns + [results.rows[0][j].column];
        }
      }
      var data: seq<map<string, JsonValue>> := [];
      for i := 0 to |results.rows|
        invariant data == TableJson(results.table).data[..i]
      {
        assert ShowsRow(results.rows[i], results.table[i]);
        var members := RowMembers(results.rows[i], results.table[i]);
        data := data + [members];
      }
      assert columns == TableJson(results.table).columns;
      assert data == TableJson(results.table).data;
      json := JsonObject(Some(JsonTable(columns, data)), None, None);
    }

    /** What the action needs before it works: it is as it was described, with the rows it already has. */
    ghost predicate Ready(def: ActionDef, ids: seq<string>, tables: seq<Table>)
      reads this, parameters, set p | p in parameters :: p.value
      reads results, set r, f | r in results.rows && f in r :: f.value
      reads container, set a | a in container :: a.results
      reads set a, r, f | a in container && r in a.results.rows && f in r :: f.value
    {
      Distinct(parameters) && DescribedBy(def) && Sees(ids, tables) && results.Valid() && results.table == def.rows
    }

    /**
     * One run of the action on the shared objects does what the copying semantics says. No value object that existed
     * before is written to: parameters are only pointed at other values.
     */
    method Work(ghost def: ActionDef, ghost ids: seq<string>, ghost tables: seq<Table>) returns (ok: bool)
      requires Ready(def, ids, tables)
      modifies this, parameters, results, database
      ensures container == old(container)
      ensures var run := RunAction(database.server, ids, tables, def, old(database.log));
              && database.log == run.log
              && results.Valid() && results.table == run.rows
              && (ok <==> run.failure.None?)
              && (ok ==> !error && jsonResult == ActionJson(def, run.rows))
              && (ok ==> jsonResult == JsonObject(Some(TableJson(results.table)), Some(status), Some(message)))
              && (!ok ==> error && customError == run.failure.value && jsonResult == old(jsonResult))
      ensures forall d: DValue | old(allocated(d)) :: d.content == old(d.content)
    {
      ghost var log := database.log;
      ok := ComposeQuery(ids, tables, def.parameters);
      if error { return false; }
      ok := WorkComposed(def, Compose(ids, tables, def.parameters).args);
    }

    /** The fields that no step before the condition changes. */
    ghost predicate Carries(def: ActionDef)
      reads this
    {
      && identifier == def.identifier && condition == def.condition && customError == def.customError
      && status == def.status && message == def.message
    }

    /** The steps of Work after the query was composed. */
    method WorkComposed(ghost def: ActionDef, ghost args: seq<Value>) returns (ok: bool)
      requires Carries(def) && queryText == def.sql
      requires !error && results.Valid() && results.table == def.rows && Holds(bindings, args)
      modifies this, results, database
      ensures container == old(container)
      ensures var run := Finish(database.server, def, old(database.log) + [Execute(def.sql, args)]);
              && database.log == run.log
              && results.Valid() && results.table == run.rows
              && (ok <==> run.failure.None?)
              && (ok ==> !error && jsonResult == ActionJson(def, run.rows))
              && (!ok ==> error && customError == run.failure.value && jsonResult == old(jsonResult))
      ensures forall d: DValue | old(allocated(d)) :: d.content == old(d.content)
    {
      ExecuteQuery(args);
      if error { return false; }
      MakeResults();
      if error { return false; }
      assert results.table == def.rows + fetched.rows;
      ok := WorkFetched(def);
    }

    /** The steps of Work after the results were made. */
    method WorkFetched(ghost def: ActionDef) returns (ok: bool)
      requires Carries(def) && !error && results.Valid()
      modifies this, database
      ensures container == old(container)
      ensures var run := Conclude(database.server, def, results.table, old(database.log));
              && database.log == run.log
              && results.Valid() && results.table == run.rows
              && (ok <==> run.failure.None?)
              && (ok ==> !error && jsonResult == ActionJson(def, run.rows))
              && (!ok ==> error && customError == run.failure.value && jsonResult == old(jsonResult))
      ensures forall d: DValue | old(allocated(d)) :: d.content == old(d.content)
    {
      GetLastInsertID();
      if error { return false; }
      ok := VerifyCondition(def);
      if !ok { return false; }
      jsonResult := CreateJSONResult();
      jsonResult := jsonResult.(status := Some(status), message := Some(message));
      ok := true;
    }
  }

  lemma OnlyFirst(ids: seq<string>, id: string, k: nat)
    requires k < |ids| && ids[k] == id && forall m :: 0 <= m < k ==> ids[m] != id
    ensures FindAction(ids, id) == Some(k)
  {
    var found := FindAction(ids, id);
    assert found.None? || ids[found.value] == id;
  }
}
