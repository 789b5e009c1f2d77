/** The part of `java.sql.ResultSet` and `java.sql.ResultSetMetaData` that the handler uses:
    column count, column label by position, forward-only `next()`, and `getString` by column
    position. A cursor is a fixed table plus a position that `next()` advances. */
module Jdbc {
  import opened Exits

  /** What a cursor was opened over. `labels[c - 1]` is the label of column `c`, and
      `rows[r][c - 1]` the text of column `c` in row `r`. Two switches stand for the database
      failing: `metadataFails` makes `getMetaData()` throw, and `nextFailsAt == Some(p)` makes
      the call of `next()` made at position `p` throw (`p == |rows| + 1` is a driver that throws
      when asked to move past the end). */
  datatype Table = Table(
    labels: seq<string>,
    rows: seq<seq<string>>,
    metadataFails: bool,
    nextFailsAt: Option<nat>)

  /** The column descriptor returned by `getMetaData()`. */
  datatype Metadata = Metadata(labels: seq<string>) {

    function ColumnCount(): nat {
      |labels|
    }

    /** `getColumnLabel(column)`: columns are numbered from 1; a position outside
        1..ColumnCount() is rejected by the driver. */
    function ColumnLabel(column: int): (r: Exit<string>)
      ensures r.Return? <==> 1 <= column <= ColumnCount()
      ensures r.Return? ==> r.value == labels[column - 1]
      ensures !r.Return? ==> r == Throw(SQLException)
    {
      if 1 <= column <= |labels| then Return(labels[column - 1]) else Throw(SQLException)
    }
  }

  /** `getMetaData()` on a cursor over `t`. */
  function MetaData(t: Table): (r: Exit<Metadata>)
    ensures r.Return? <==> !t.metadataFails
    ensures r.Return? ==> r.value.labels == t.labels
  {
    if t.metadataFails then Throw(SQLException) else Return(Metadata(t.labels))
  }

  /** `next()` at position `pos`, returning the outcome and the new position. Position 0 is
      before the first row, position `p` in 1..|rows| is on row `p - 1`, and position
      `|rows| + 1` is after the last row. There `next()` answers false, or throws when
      `nextFailsAt` says so, as JDBC lets a forward-only cursor do. */
  function Advance(t: Table, pos: nat): (r: (Exit<bool>, nat))
    requires pos <= |t.rows| + 1
    ensures r.1 <= |t.rows| + 1
    ensures r.0 == Return(true) <==> pos < |t.rows| && t.nextFailsAt != Some(pos)
    ensures r.0 == Return(true) ==> r.1 == pos + 1
    ensures r.0.Throw? <==> t.nextFailsAt == Some(pos)
    ensures r.0.Throw? ==> r.1 == pos && r.0.exception == SQLException
    ensures r.0 == Return(false) ==> r.1 == |t.rows| + 1
    ensures !r.0.Hang?
  {
    if t.nextFailsAt == Some(pos) then (Throw(SQLException), pos)
    else if pos <= |t.rows| then (Return(pos < |t.rows|), pos + 1)
    else (Return(false), pos)
  }

  /** `getString(column)` at position `pos`: the text of that column of the current row, or
      an exception when the cursor is not on a row or the column does not exist. */
  function Cell(t: Table, pos: nat, column: int): (r: Exit<string>)
    ensures r.Return? <==> 1 <= pos <= |t.rows| && 1 <= column <= |t.rows[pos - 1]|
    ensures r.Return? ==> r.value == t.rows[pos - 1][column - 1]
    ensures !r.Return? ==> r == Throw(SQLException)
  {
    if 1 <= pos <= |t.rows| && 1 <= column <= |t.rows[pos - 1]|
    then Return(t.rows[pos - 1][column - 1])
    else Throw(SQLException)
  }

  /** The rows a full pass of `next()` from position `pos` visits. */
  function Remaining(t: Table, pos: nat): seq<seq<string>> {
    if pos <= |t.rows| then t.rows[pos..] else []
  }

  /** A cursor: the caller owns it. It has no "closed" state, because the handler never
      closes it. */
  class Cursor {
    const table: Table
    var pos: nat

    ghost predicate Valid()
      reads this
    {
      pos <= |table.rows| + 1
    }

    constructor (t: Table)
      ensures Valid() && table == t && pos == 0
    {
      table := t;
      pos := 0;
    }

    function GetMetaData(): Exit<Metadata> {
      MetaData(table)
    }

    method Next() returns (r: Exit<bool>)
      requires Valid()
      modifies this
      ensures Valid()
      ensures (r, pos) == Advance(table, old(pos))
    {
      var step := Advance(table, pos);
      r, pos := step.0, step.1;
    }

    function GetString(column: int): Exit<string>
      reads this
    {
      Cell(table, pos, column)
    }
  }
}
