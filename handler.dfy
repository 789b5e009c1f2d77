/** `org.light32.dynsql.ResultSetHandler`: turns a cursor into a list of read-only records and
    keeps a one-slot cache keyed by the cursor it was constructed with. */
module Dynsql {
  import opened Exits
  import opened Jdbc
  import opened HandlerSpec

  /** The block length meaning "every row". */
  const ALL_ROWS: int := -1

  class ResultSetHandler {
    /** The block length: stored by the constructors, read nowhere. */
    const rowsInList: int
    /** The remembered cursor: set by the constructors only. */
    var contextResultSet: Cursor?
    /** The list handed out by `doList`; `None` is Java's `null`. */
    var contextResultCache: Option<seq<Record>>

    constructor (blockLength: int, contextResultSet: Cursor?)
      ensures rowsInList == blockLength && this.contextResultSet == contextResultSet
      ensures contextResultCache == None
    {
      rowsInList := blockLength;
      this.contextResultSet := contextResultSet;
      contextResultCache := None;
    }

    constructor Unbound()
      ensures rowsInList == ALL_ROWS && contextResultSet == null && contextResultCache == None
    {
      rowsInList := ALL_ROWS;
      contextResultSet := null;
      contextResultCache := None;
    }

    constructor Bound(rs: Cursor?)
      ensures rowsInList == ALL_ROWS && contextResultSet == rs && contextResultCache == None
    {
      rowsInList := ALL_ROWS;
      contextResultSet := rs;
      contextResultCache := None;
    }

    /** The fluent constructor `with(rs)`: a new handler remembering `rs`, with no cache yet. */
    static method With(rs: Cursor?) returns (h: ResultSetHandler)
      ensures fresh(h)
      ensures h.rowsInList == ALL_ROWS && h.contextResultSet == rs && h.contextResultCache == None
    {
      h := new ResultSetHandler.Bound(rs);
    }

    /** `doList(rs)`: null for a null cursor; the cache-hit answer for the remembered cursor;
        otherwise a fresh read of `rs` into a new cache. The remembered cursor never changes. */
    method DoList(rs: Cursor?) returns (r: Exit<Option<seq<Record>>>)
      requires rs != null ==> rs.Valid()
      modifies this`contextResultCache, rs
      ensures contextResultSet == old(contextResultSet)
      ensures rs == null ==> r == Return(None) && contextResultCache == old(contextResultCache)
      ensures rs != null ==> rs.Valid()
      ensures rs != null ==>
        var e := Call(rs == contextResultSet, rs.table, old(rs.pos), old(contextResultCache));
        r == e.exit && contextResultCache == e.cache && rs.pos == e.pos
    {
      if rs == null {
        return Return(None);
      }
      if rs == contextResultSet {
        return Return(Answer(contextResultCache));
      }
      var md :- rs.GetMetaData();
      contextResultCache := Some([]);
      var colmap :- ColumnMap(md);
      ghost var start := rs.pos;
      while true
        invariant rs.Valid() && contextResultCache.Some?
        invariant Drain(rs.table, colmap, start, [])
               == Drain(rs.table, colmap, rs.pos, contextResultCache.value)
        decreases |rs.table.rows| + 1 - rs.pos
      {
        ghost var before := rs.pos;
        var more :- rs.Next();
        if !more {
          assert Drain(rs.table, colmap, before, contextResultCache.value)
              == Drained(false, contextResultCache.value, rs.pos);
          break;
        }
        var row :- BuildRow(rs, colmap);
        contextResultCache := Some(contextResultCache.value + [row]);
      }
      // the cursor is left open: it belongs to the caller
      return Return(Answer(contextResultCache));
    }

    /** `doList()`: `doList` of the remembered cursor, which is always a cache hit. */
    method DoListContext() returns (r: Exit<Option<seq<Record>>>)
      requires contextResultSet != null ==> contextResultSet.Valid()
      modifies this`contextResultCache, contextResultSet
      ensures r == Return(if contextResultSet == null then None else Answer(contextResultCache))
      ensures contextResultCache == old(contextResultCache)
      ensures contextResultSet != null ==> contextResultSet.pos == old(contextResultSet.pos)
    {
      r := DoList(contextResultSet);
    }

    /** `stream(rs)`: the records of `doList(rs)`, failing on a null list. */
    method Stream(rs: Cursor?) returns (r: Exit<seq<Record>>)
      requires rs != null ==> rs.Valid()
      modifies this`contextResultCache, rs
      ensures contextResultSet == old(contextResultSet)
      ensures rs == null ==> r == Throw(NullPointerException)
      ensures rs == null ==> contextResultCache == old(contextResultCache)
      ensures rs != null ==> rs.Valid()
      ensures rs != null ==>
        var e := Call(rs == contextResultSet, rs.table, old(rs.pos), old(contextResultCache));
        r == StreamOf(e.exit) && contextResultCache == e.cache && rs.pos == e.pos
    {
      var list :- DoList(rs);
      if list.None? {
        return Throw(NullPointerException);
      }
      return Return(list.value);
    }

    /** `stream()`: `stream` of the remembered cursor, a cache hit that fails unless the cache
        holds a non-empty list. */
    method StreamContext() returns (r: Exit<seq<Record>>)
      requires contextResultSet != null ==> contextResultSet.Valid()
      modifies this`contextResultCache, contextResultSet
      ensures r == StreamOf(Return(if contextResultSet == null then None else Answer(contextResultCache)))
      ensures contextResultCache == old(contextResultCache)
      ensures contextResultSet != null ==> contextResultSet.pos == old(contextResultSet.pos)
    {
      r := Stream(contextResultSet);
    }
  }

  /** The column-discovery loop of `doList`: `i` starts at 1 and is never incremented, so with two
      or more columns the body never runs, with no column `getColumnLabel(1)` throws, and with one
      column the same iteration repeats for ever. */
  method ColumnMap(md: Metadata) returns (r: Exit<map<string, int>>)
    ensures r == ColumnLoop(md)
    ensures md.ColumnCount() >= 2 ==> r == Return(map[])
    ensures md.ColumnCount() == 1 ==> r == Hang
    ensures md.ColumnCount() == 0 ==> r == Throw(SQLException)
  {
    var colmap: map<string, int> := map[];
    var i := 1;
    var hung := false;
    while !hung && md.ColumnCount() <= i
      invariant !hung ==> colmap == map[]
      invariant hung ==> md.ColumnCount() == 1
      decreases if hung then 0 else 1
    {
      var name :- md.ColumnLabel(i);
      colmap := colmap[name := i];
      // `i` is unchanged, so the guard holds again and this iteration would repeat for ever:
      // the model stops here and reports that the call never returns
      hung := true;
    }
    if hung {
      return Hang;
    }
    return Return(colmap);
  }

  /** The body of the row loop: one record holding, for every entry of `colmap` (in whatever
      order the map yields them), `getString` of that column of the current row. */
  method BuildRow(rs: Cursor, colmap: map<string, int>) returns (r: Exit<Record>)
    ensures r == RowRecord(rs.table, colmap, rs.pos)
    ensures r.Return? ==> r.value.Keys == colmap.Keys
    ensures r.Return? ==> forall name :: name in colmap ==> Cell(rs.table, rs.pos, colmap[name]) == Return(r.value[name])
  {
    var row: Record := map[];
    var todo := colmap.Keys;
    while todo != {}
      invariant todo <= colmap.Keys
      invariant row.Keys == colmap.Keys - todo
      invariant forall name :: name in row ==> rs.GetString(colmap[name]) == Return(row[name])
      decreases todo
    {
      var name :| name in todo;
      var value :- rs.GetString(colmap[name]);
      row := row[name := value];
      todo := todo - {name};
    }
    assert row == map name | name in colmap :: Cell(rs.table, rs.pos, colmap[name]).value;
    return Return(row);
  }

  /** The usage the class comment suggests, `ResultSetHandler.with(resultSet).doList()`: the
      handler's cache is still null, so the call is a cache hit that answers null and reads
      nothing from the cursor, whatever it holds. */
  method FluentDoList(t: Table) returns (r: Exit<Option<seq<Record>>>, pos: nat)
    ensures r == Return(None) && pos == 0
  {
    var rs := new Cursor(t);
    var h := ResultSetHandler.With(rs);
    r := h.DoListContext();
    pos := rs.pos;
  }

  /** The streaming usage the class comment suggests, `ResultSetHandler.with(resultSet).stream()`:
      it always fails on the null list. */
  method FluentStream(t: Table) returns (r: Exit<seq<Record>>)
    ensures r == Throw(NullPointerException)
  {
    var rs := new Cursor(t);
    var h := ResultSetHandler.With(rs);
    r := h.StreamContext();
  }

  /** `doList(rs)` twice on a default handler with a cursor of two or more columns: the first call
      reads every row (one empty record each); the second finds the cursor exhausted, because
      `rs` was never remembered, and answers null, or throws with a driver that throws after the
      last row. */
  method DoListTwice(t: Table) returns (first: Exit<Option<seq<Record>>>, second: Exit<Option<seq<Record>>>)
    ensures !t.metadataFails && |t.labels| >= 2 && Healthy(t, 0) ==>
      && first.Return? && (first.value.None? <==> t.rows == [])
      && (first.value.Some? ==> |first.value.value| == |t.rows|)
      && (first.value.Some? ==> forall i :: 0 <= i < |t.rows| ==> first.value.value[i] == map[])
    ensures !t.metadataFails && |t.labels| >= 2 && Healthy(t, 0) && t.nextFailsAt != Some(|t.rows| + 1)
      ==> second == Return(None)
    ensures !t.metadataFails && |t.labels| >= 2 && t.nextFailsAt == Some(|t.rows| + 1)
      ==> second == Throw(SQLException)
  {
    var rs := new Cursor(t);
    var h := new ResultSetHandler.Unbound();
    first := h.DoList(rs);
    second := h.DoList(rs);
    if !t.metadataFails && |t.labels| >= 2 && Healthy(t, 0) {
      ScanReadsEveryRow(t, 0, None);
      if t.nextFailsAt != Some(|t.rows| + 1) {
        RescanReturnsNothing(t, 0, None);
      } else {
        RescanOnThrowingDriver(t, 0, None);
      }
    }
  }

  /** A handler bound to one cursor and handed another: `doList(other)` fills the cache with the
      other cursor's records, and the following `doList()` of the bound cursor returns exactly
      what that read returned: one empty record per row of the other cursor; `stream()` then
      yields those records instead of failing. */
  method BoundHandlerServesOther(t: Table, other: Table)
    returns (read: Exit<Option<seq<Record>>>, r: Exit<Option<seq<Record>>>, streamed: Exit<seq<Record>>)
    ensures !other.metadataFails && |other.labels| >= 2 && Healthy(other, 0) && other.rows != [] ==>
      && r == read
      && r.Return? && r.value.Some? && |r.value.value| == |other.rows|
      && (forall i :: 0 <= i < |r.value.value| ==> r.value.value[i] == map[])
      && streamed == Return(r.value.value)
  {
    var rs := new Cursor(t);
    var os := new Cursor(other);
    var h := ResultSetHandler.With(rs);
    read := h.DoList(os);
    r := h.DoListContext();
    streamed := h.StreamContext();
    if !other.metadataFails && |other.labels| >= 2 && Healthy(other, 0) && other.rows != [] {
      StaleAnswer(t, 0, other, 0, None);
      ScanReadsEveryRow(other, 0, None);
    }
  }
}
