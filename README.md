# ResultSetHandler, modelled in Dafny

`org.light32.dynsql.ResultSetHandler` turns a JDBC `ResultSet` into a `List<Map<String,String>>`.
Each row becomes a read-only map from column label to column text. The handler also keeps a
one-slot cache (`contextResultCache`) keyed by a remembered cursor (`contextResultSet`).

The model follows the Java code as written, not the design its comments describe. Three
consequences are proved:

- `doList(rs)` never assigns `contextResultSet`; only the constructors do. A cursor passed to
  `doList(rs)` is never remembered, so a second `doList(rs)` reads the now exhausted cursor
  again and leaves an empty cache. It returns null when the driver answers false after the
  last row, and throws `SQLException` when the driver throws there, as JDBC allows
  (`RescanReturnsNothing`, `RescanOnThrowingDriver`, `DoListTwice`).
- The column loop starts `i` at 1, runs while `getColumnCount() <= i`, and never increments `i`.
  - With two or more columns the body never runs. The column map stays empty, so every record
    is an empty map.
  - With no column, `getColumnLabel(1)` throws.
  - With exactly one column the loop never exits.
- A handler built by `with(rs)` or `new ResultSetHandler(rs)` starts with a null cache. Its
  `doList()` is always a cache hit and never reads the cursor. Until a `doList(other)` fills the
  cache, that hit answers null, and its `stream()` fails with a null dereference (`FluentDoList`,
  `FluentStream`). After `doList(other)` has read a cursor with rows, the same handler's
  `doList()` answers with the other cursor's records, and `stream()` yields them
  (`BoundHandlerServesOther`).

Files:

- `exits.dfy` (`Exits`): `Option` for Java `null`; `Exit` for how a call ends. A call returns a
  value, throws `SQLException` or `NullPointerException`, or hangs.
- `jdbc.dfy` (`Jdbc`): the cursor. A `Table` value holds the column labels, the rows of text and
  two failure switches. A `Cursor` object holds that table and a position that `Next` advances.
  The functions `MetaData`, `Advance` and `Cell` give what `getMetaData`, `next` and `getString`
  do at a position.
- `handler_spec.dfy` (`HandlerSpec`): `doList` as functions of the table, the cursor position
  and the cache. It also holds the lemmas about them.
- `handler.dfy` (`Dynsql`): the class `ResultSetHandler`, with its fields and methods. Its loops
  are proved against the `HandlerSpec` functions. It also holds client methods for the documented
  usage and for repeated calls.

## Model

| member | source | states |
|---|---|---|
| `Jdbc.MetaData` | src/main/java/org/light32/dynsql/ResultSetHandler.java:90 | `getMetaData()` succeeds exactly when the metadata switch is off, and it then describes the table's labels |
| `Jdbc.Metadata.ColumnLabel` | src/main/java/org/light32/dynsql/ResultSetHandler.java:100 | `getColumnLabel(c)` yields the label of column `c` exactly when `1 <= c <= getColumnCount()`, and throws `SQLException` otherwise |
| `Jdbc.Advance` | src/main/java/org/light32/dynsql/ResultSetHandler.java:106 | `next()` answers true exactly when a row follows and the call does not fail, and it then moves one row on; otherwise it ends after the last row answering false, or it throws and leaves the position alone; a throw is possible at any position, including after the last row |
| `Jdbc.Cell` | src/main/java/org/light32/dynsql/ResultSetHandler.java:111 | `getString(c)` yields column `c` of the current row exactly when the cursor is on a row that has that column, and throws otherwise |
| `Jdbc.Cursor.Next` | src/main/java/org/light32/dynsql/ResultSetHandler.java:106 | the cursor's `next()` returns what `Advance` gives and moves to the position it gives |
| `HandlerSpec.Records` | src/main/java/org/light32/dynsql/ResultSetHandler.java:106-115 | one record per row, in row order; record `i` holds row `i`'s text under each label of the column map |
| `HandlerSpec.Drain` | src/main/java/org/light32/dynsql/ResultSetHandler.java:106-115 | the row loop only moves the cursor forward and never past the end |
| `HandlerSpec.Scan` | src/main/java/org/light32/dynsql/ResultSetHandler.java:88-119 | reading a new cursor only moves it forward and never past the end |
| `HandlerSpec.RowRecordCovered` | src/main/java/org/light32/dynsql/ResultSetHandler.java:108-112 | when the current row has every column of the column map, the row's record maps each label to that row's text at the label's column |
| `HandlerSpec.DrainStep` | src/main/java/org/light32/dynsql/ResultSetHandler.java:106-114 | one pass of the row loop moves the cursor one row on and appends that row's record to the cache |
| `HandlerSpec.DrainReadsRemaining` | src/main/java/org/light32/dynsql/ResultSetHandler.java:106-115 | without cursor failures, the row loop appends exactly one record per remaining row, in cursor order, and leaves the cursor exhausted |
| `HandlerSpec.DrainStopsAtFailure` | src/main/java/org/light32/dynsql/ResultSetHandler.java:106-115 | when `next()` throws at position `k`, the loop stops at `k` and the cache holds the records of the rows passed before `k` |
| `HandlerSpec.ScanReadsEveryRow` | src/main/java/org/light32/dynsql/ResultSetHandler.java:90-119 | a new cursor with two or more columns: the cache becomes one empty record per remaining row and the cursor ends exhausted; the answer is null exactly when no row was appended, and otherwise it is the cache |
| `HandlerSpec.ScanBeforeRows` | src/main/java/org/light32/dynsql/ResultSetHandler.java:90-101 | a failing `getMetaData()` leaves the cache and the cursor untouched; with no column the call throws after the cache was replaced by an empty list; with one column the call never returns |
| `HandlerSpec.ScanPartialOnFailure` | src/main/java/org/light32/dynsql/ResultSetHandler.java:93-115 | a `next()` that throws part-way propagates `SQLException`; the earlier cache is gone and the new one holds the rows read before the failure |
| `HandlerSpec.RescanReturnsNothing` | src/main/java/org/light32/dynsql/ResultSetHandler.java:84-119 | reading the same new cursor twice, with a driver that answers false after the last row: the second read answers null and leaves an empty cache, because the first never made the cursor the remembered one |
| `HandlerSpec.RescanOnThrowingDriver` | src/main/java/org/light32/dynsql/ResultSetHandler.java:84-119 | the same with a driver that throws when `next()` is called after the last row: the first read returns every row, the second throws `SQLException` and leaves an empty cache |
| `HandlerSpec.StaleAnswer` | src/main/java/org/light32/dynsql/ResultSetHandler.java:84-119 | after another cursor with rows was read, a cache hit on the remembered cursor answers with the other cursor's records and changes nothing |
| `Dynsql.ResultSetHandler.constructor` | src/main/java/org/light32/dynsql/ResultSetHandler.java:38-41 | stores the block length and the remembered cursor; the cache starts null |
| `Dynsql.ResultSetHandler.Unbound` | src/main/java/org/light32/dynsql/ResultSetHandler.java:42-44 | block length `ALL_ROWS`, no remembered cursor, a null cache |
| `Dynsql.ResultSetHandler.Bound` | src/main/java/org/light32/dynsql/ResultSetHandler.java:45-47 | block length `ALL_ROWS`, `rs` remembered, a null cache |
| `Dynsql.ResultSetHandler.With` | src/main/java/org/light32/dynsql/ResultSetHandler.java:64-67 | a new handler that remembers `rs` and has a null cache |
| `Dynsql.ResultSetHandler.DoList` | src/main/java/org/light32/dynsql/ResultSetHandler.java:77-120 | a null cursor: null, nothing changes; the remembered cursor: the cache-hit answer, with cache and cursor unchanged; any other cursor: the outcome, cache and cursor position of `Scan`; the remembered cursor never changes |
| `Dynsql.ResultSetHandler.DoListContext` | src/main/java/org/light32/dynsql/ResultSetHandler.java:128-130 | always the cache-hit answer (null without a remembered cursor); the cache and the cursor position are unchanged |
| `Dynsql.ResultSetHandler.Stream` | src/main/java/org/light32/dynsql/ResultSetHandler.java:138-140 | the state change of `doList(rs)`, and `StreamOf` of its answer: a null list becomes `NullPointerException` |
| `Dynsql.ResultSetHandler.StreamContext` | src/main/java/org/light32/dynsql/ResultSetHandler.java:147-149 | the cache's records when the cache is non-empty and a cursor is remembered, otherwise `NullPointerException`; nothing changes |
| `Dynsql.ColumnMap` | src/main/java/org/light32/dynsql/ResultSetHandler.java:96-101 | the column loop yields an empty map for two or more columns, hangs for one column, and throws `SQLException` for none |
| `Dynsql.BuildRow` | src/main/java/org/light32/dynsql/ResultSetHandler.java:108-112 | the row map has exactly the column map's labels, each mapped to `getString` of its column; it throws if any such `getString` throws |
| `Dynsql.FluentDoList` | src/main/java/org/light32/dynsql/ResultSetHandler.java:52 | `with(rs).doList()` returns null and leaves the cursor at its start, whatever the cursor holds |
| `Dynsql.FluentStream` | src/main/java/org/light32/dynsql/ResultSetHandler.java:54-59 | `with(rs).stream()` always throws `NullPointerException` |
| `Dynsql.DoListTwice` | src/main/java/org/light32/dynsql/ResultSetHandler.java:84-119 | on a default handler, `doList(rs)` twice over a healthy cursor with two or more columns: the first call returns one empty record per row (null for no rows); the second returns null, or throws `SQLException` with a driver that throws after the last row |
| `Dynsql.BoundHandlerServesOther` | src/main/java/org/light32/dynsql/ResultSetHandler.java:84-149 | a handler from `with(rs)` that reads another cursor with rows then answers `doList()` with exactly what that read returned: one empty record per row of the other cursor; the following `stream()` yields those same records instead of failing |

## Left out

- JDBC itself is not modelled: drivers, connections, metadata objects and the causes of
  `SQLException`. A cursor is a table of text, a position and two failure switches: `getMetaData`
  fails, or `next` fails at one position. `getString` fails off a row or outside the row. These
  are assumptions about a driver, not facts from this repository.
- `Jdbc.Advance`: a failing `next()` is one chosen position per cursor, not an arbitrary set of
  failures. That position may be after the last row, which stands for a driver that throws
  there instead of answering false.
- Column labels are looked up by position. A position outside `1..getColumnCount()` is assumed to
  throw, as JDBC drivers do. A driver that answered instead would make the no-column case hang
  like the one-column case.
- SQL NULL is not modelled. `getString` returns Java `null` for it; every cell here is a string.
- Nontermination is an outcome, `Hang`. With one column, the column loop's guard is unchanged by
  its body. The model runs the body once, records that it would repeat, and stops.
- The list is a value. `contextResultCache` is a field of type `Option<seq<Record>>`, and `add`
  reassigns it. The Java `ArrayList` is shared with the caller: a caller that mutates the returned
  list mutates the cache. That aliasing is not captured.
- `HashMap` capacity, load factor and iteration order are left out. `BuildRow` takes the column
  map's entries in an arbitrary order, and its result does not depend on it.
- `Collections.unmodifiableMap` is left out: records are immutable Dafny maps.
- `Stream` is the sequence of the list's records. Laziness and the fluent chaining of
  `java.util.stream` are not modelled.
- `rowsInList` is a `const`: it is stored and never read, as in the source. The block length has
  no effect.
- Identity comparison: `rs.equals(contextResultSet)` is modelled as reference equality, which is
  `Object.equals` for cursors that do not override it.
- Concurrency is left out: the class is single-threaded. The unused imports are left out too.
- Closing the cursor is left out. The handler never closes it, so the cursor has no closed state.
