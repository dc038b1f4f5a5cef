/** The JSON table built from a result set (src/functions/action.cpp, CreateJSONResult_). */
module Json {
  import opened Wrappers
  import opened Query

  datatype JsonValue = JBool(b: bool) | JFloat(r: real) | JInt(i: int) | JStr(s: string)

  datatype JsonTable = JsonTable(columns: seq<string>, data: seq<map<string, JsonValue>>)

  /** A JSON object as an action publishes it; a new object has no members. */
  datatype JsonObject = JsonObject(table: Option<JsonTable>, status: Option<string>, message: Option<string>)

  const EMPTY_OBJECT := JsonObject(None, None, None)

  function ToJson(v: Value): JsonValue {
    match v
    case Bool(b) => JBool(b)
    case Float(r) => JFloat(r)
    case Int(i) => JInt(i)
    case Str(s) => JStr(s)
    case Empty => JStr("")
  }

  function FromJson(v: JsonValue): Value {
    match v
    case JBool(b) => Bool(b)
    case JFloat(r) => Float(r)
    case JInt(i) => Int(i)
    case JStr(s) => Str(s)
  }

  /** Setting the members of a row one after the other: a later field of the same name wins. */
  function RowObject(cells: seq<Cell>): map<string, JsonValue> {
    if cells == [] then map[]
    else
      var last := |cells| - 1;
      RowObject(cells[..last])[cells[last].column := ToJson(cells[last].value)]
  }

  function Columns(cells: seq<Cell>): (names: seq<string>) {
    seq(|cells|, j requires 0 <= j < |cells| => cells[j].column)
  }

  function TableJson(table: Table): JsonTable {
    JsonTable(if table == [] then [] else Columns(table[0]),
              seq(|table|, i requires 0 <= i < |table| => RowObject(table[i])))
  }

  /** The row as a reader of the JSON sees it: NULL is shown as the empty string. */
  function Shown(v: Value): Value {
    if v.Empty? then Str("") else v
  }

  function ShownRow(cells: seq<Cell>): seq<Cell> {
    seq(|cells|, j requires 0 <= j < |cells| => Cell(cells[j].column, Shown(cells[j].value)))
  }

  function ShownTable(table: Table): Table {
    seq(|table|, i requires 0 <= i < |table| => ShownRow(table[i]))
  }

  /** Reading a table back from the JSON: every object, read in the order of the columns. */
  function RebuildRow(columns: seq<string>, members: map<string, JsonValue>): seq<Cell> {
    seq(|columns|, j requires 0 <= j < |columns| =>
      Cell(columns[j], if columns[j] in members then FromJson(members[columns[j]]) else Empty))
  }

  function Rebuild(json: JsonTable): Table {
    seq(|json.data|, i requires 0 <= i < |json.data| => RebuildRow(json.columns, json.data[i]))
  }

  /** Every row has the columns of the first one, and cells of one row that share a name show the same value. */
  predicate Uniform(table: Table) {
    && (forall i :: 0 <= i < |table| ==> Columns(table[i]) == Columns(table[0]))
    && (forall i, j, k :: 0 <= i < |table| && 0 <= j < |table[i]| && 0 <= k < |table[i]|
          && table[i][j].column == table[i][k].column
          ==> Shown(table[i][j].value) == Shown(table[i][k].value))
  }

  /** A member of a row object holds the value of the last field of that name. */
  lemma {:induction false} LastFieldWins(cells: seq<Cell>, name: string, j: nat)
    requires j < |cells| && cells[j].column == name
    requires forall k :: j < k < |cells| ==> cells[k].column != name
    ensures name in RowObject(cells) && RowObject(cells)[name] == ToJson(cells[j].value)
  {
    var last := |cells| - 1;
    if j < last {
      LastFieldWins(cells[..last], name, j);
    }
  }

  /** A row object has the columns of its row as members and no others; NULL is an empty string. */
  lemma {:induction false} MembersAreColumns(cells: seq<Cell>, name: string)
    ensures name in RowObject(cells) <==> exists j :: 0 <= j < |cells| && cells[j].column == name
    ensures name in RowObject(cells)
            && (forall j :: 0 <= j < |cells| && cells[j].column == name ==> cells[j].value.Empty?)
            ==> RowObject(cells)[name] == JStr("")
  {
    if cells != [] {
      var last := |cells| - 1;
      MembersAreColumns(cells[..last], name);
      if name in RowObject(cells[..last]) {
        var j :| 0 <= j < last && cells[..last][j].column == name;
        assert cells[j].column == name;
      }
      assert forall j :: 0 <= j < last ==> cells[..last][j] == cells[j];
    }
  }

  /** The index of the last field of a name that occurs. */
  lemma {:induction false} LastIndex(cells: seq<Cell>, name: string, seen: nat) returns (j: nat)
    requires seen < |cells| && cells[seen].column == name
    ensures seen <= j < |cells| && cells[j].column == name
    ensures forall k :: j < k < |cells| ==> cells[k].column != name
    decreases |cells| - seen
  {
    if k :| seen < k < |cells| && cells[k].column == name {
      j := LastIndex(cells, name, k);
    } else {
      j := seen;
    }
  }

  lemma CellRebuilt(cells: seq<Cell>, j: nat)
    requires j < |cells|
    requires forall k :: 0 <= k < |cells| && cells[k].column == cells[j].column
               ==> Shown(cells[k].value) == Shown(cells[j].value)
    ensures cells[j].column in RowObject(cells)
    ensures FromJson(RowObject(cells)[cells[j].column]) == Shown(cells[j].value)
  {
    var last := LastIndex(cells, cells[j].column, j);
    LastFieldWins(cells, cells[j].column, last);
    assert FromJson(ToJson(cells[last].value)) == Shown(cells[last].value);
  }

  lemma RowRebuilt(cells: seq<Cell>)
    requires forall j, k :: 0 <= j < |cells| && 0 <= k < |cells| && cells[j].column == cells[k].column
               ==> Shown(cells[j].value) == Shown(cells[k].value)
    ensures RebuildRow(Columns(cells), RowObject(cells)) == ShownRow(cells)
  {
    forall j | 0 <= j < |cells|
      ensures RebuildRow(Columns(cells), RowObject(cells))[j] == ShownRow(cells)[j]
    {
      CellRebuilt(cells, j);
    }
  }

  lemma RowNotRebuilt(cells: seq<Cell>, j: nat, k: nat)
    requires j < |cells| && k < |cells| && cells[j].column == cells[k].column
    requires RebuildRow(Columns(cells), RowObject(cells)) == ShownRow(cells)
    ensures Shown(cells[j].value) == Shown(cells[k].value)
  {
    var rebuilt := RebuildRow(Columns(cells), RowObject(cells));
    assert rebuilt[j].value == rebuilt[k].value;
    assert ShownRow(cells)[j].value == Shown(cells[j].value);
    assert ShownRow(cells)[k].value == Shown(cells[k].value);
  }

  /** The rows can be read back from the JSON, up to NULL, exactly for the uniform tables. */
  lemma JsonIsFaithfulIffUniform(table: Table)
    ensures |TableJson(table).data| == |table|
    ensures Rebuild(TableJson(table)) == ShownTable(table) <==> Uniform(table)
  {
    var json := TableJson(table);
    if Uniform(table) {
      forall i | 0 <= i < |table|
        ensures Rebuild(json)[i] == ShownTable(table)[i]
      {
        RowRebuilt(table[i]);
      }
    }
    if Rebuild(json) == ShownTable(table) {
      forall i | 0 <= i < |table|
        ensures Columns(table[i]) == Columns(table[0])
      {
        assert Rebuild(json)[i] == ShownTable(table)[i];
        ColumnsRebuilt(json.columns, json.data[i], table[i]);
      }
      forall i, j, k | 0 <= i < |table| && 0 <= j < |table[i]| && 0 <= k < |table[i]|
                       && table[i][j].column == table[i][k].column
        ensures Shown(table[i][j].value) == Shown(table[i][k].value)
      {
        assert Rebuild(json)[i] == ShownTable(table)[i];
        RowNotRebuilt(table[i], j, k);
      }
    }
  }

  lemma ColumnsRebuilt(columns: seq<string>, members: map<string, JsonValue>, cells: seq<Cell>)
    requires RebuildRow(columns, members) == ShownRow(cells)
    ensures Columns(cells) == columns
  {
    assert |columns| == |cells|;
    forall j | 0 <= j < |cells|
      ensures Columns(cells)[j] == columns[j]
    {
      assert RebuildRow(columns, members)[j].column == ShownRow(cells)[j].column;
    }
  }
}
