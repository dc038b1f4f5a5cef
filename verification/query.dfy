/** Cells, fields and result sets (src/query, src/tools/dvalue.cpp). */
module Query {
  import opened Wrappers

  /** What a DValue holds: the type tag together with the member that the tag selects. */
  datatype Value = Empty | Str(s: string) | Int(i: int) | Float(r: real) | Bool(b: bool)

  /** A value on the heap. Parameters and result fields share it by pointer. */
  class DValue {
    var content: Value

    constructor (content: Value)
      ensures this.content == content
    {
      this.content := content;
    }
  }

  /** Query::Field: the null flag is fixed when the field is built. */
  datatype Field = Field(isNull: bool, column: string, value: DValue)

  /** The same information with the value copied out of the heap. */
  datatype Cell = Cell(column: string, value: Value)

  type Table = seq<seq<Cell>>

  /** The value of one cell, if the cell exists and is not NULL. */
  function CellAt(table: Table, row: nat, column: nat): Option<Value> {
    if row < |table| && column < |table[row]| && !table[row][column].value.Empty?
    then Some(table[row][column].value) else None
  }

  ghost predicate ShowsRow(fields: seq<Field>, cells: seq<Cell>)
    reads set f | f in fields :: f.value
  {
    && |fields| == |cells|
    && forall j :: 0 <= j < |fields| ==>
         && fields[j].column == cells[j].column
         && fields[j].value.content == cells[j].value
         && fields[j].isNull == cells[j].value.Empty?
  }

  function ReadRow(fields: seq<Field>): (cells: seq<Cell>)
    reads set f | f in fields :: f.value
    ensures |cells| == |fields|
    ensures forall j :: 0 <= j < |fields| ==> cells[j] == Cell(fields[j].column, fields[j].value.content)
  {
    if fields == [] then []
    else
      var last := |fields| - 1;
      ReadRow(fields[..last]) + [Cell(fields[last].column, fields[last].value.content)]
  }

  function ReadRows(rows: seq<seq<Field>>): (table: Table)
    reads set r, f | r in rows && f in r :: f.value
    ensures |table| == |rows|
    ensures forall i :: 0 <= i < |rows| ==> table[i] == ReadRow(rows[i])
  {
    if rows == [] then []
    else
      var last := |rows| - 1;
      ReadRows(rows[..last]) + [ReadRow(rows[last])]
  }

  /** A result set: rows of fields, with the table they show. */
  class Results {
    var rows: seq<seq<Field>>
    ghost var table: Table

    ghost predicate Valid()
      reads this, set r, f | r in rows && f in r :: f.value
    {
      && |rows| == |table|
      && forall i :: 0 <= i < |rows| ==> ShowsRow(rows[i], table[i])
    }

    constructor ()
      ensures rows == [] && table == [] && Valid()
    {
      rows, table := [], [];
    }

    /** The rows as a condition reads them, with the values copied. */
    function Read(): (t: Table)
      reads this, set r, f | r in rows && f in r :: f.value
      requires Valid()
      ensures t == table
    {
      assert forall i :: 0 <= i < |rows| ==> ShowsRow(rows[i], table[i]) && ReadRow(rows[i]) == table[i];
      ReadRows(rows)
    }

    /** The field at a position; a fresh null field when there is none. */
    method ExtractField(row: nat, column: nat) returns (field: Field)
      requires Valid()
      ensures field.isNull <==> CellAt(table, row, column).None?
      ensures !field.isNull ==>
                && CellAt(table, row, column) == Some(field.value.content)
                && row < |rows| && column < |rows[row]| && field == rows[row][column]
    {
      var empty := new DValue(Empty);
      field := Field(true, "", empty);
      if |rows| < 1 { return; }
      if row > |rows| - 1 { return; }
      assert ShowsRow(rows[row], table[row]);
      if |rows[row]| < 1 { return; }
      if column > |rows[row]| - 1 { return; }
      field := rows[row][column];
    }

    /** Appends one fetched row, with a new value object for every field. */
    method PushRow(cells: seq<Cell>)
      requires Valid()
      modifies this
      ensures Valid()
      ensures table == old(table) + [cells]
      ensures |rows| == |old(rows)| + 1 && old(rows) <= rows && forall f :: f in rows[|old(rows)|] ==> fresh(f.value)
      ensures forall d: DValue | old(allocated(d)) :: d.content == old(d.content)
    {
      var fields: seq<Field> := [];
      for col := 0 to |cells|
        invariant unchanged(this)
        invariant Valid()
        invariant ShowsRow(fields, cells[..col])
        invariant forall f :: f in fields ==> fresh(f.value)
      {
        var value := new DValue(cells[col].value);
        fields := fields + [Field(cells[col].value.Empty?, cells[col].column, value)];
      }
      assert cells[..|cells|] == cells;
      rows := rows + [fields];
      table := table + [cells];
    }
  }
}
