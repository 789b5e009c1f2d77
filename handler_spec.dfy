/** What one call of `ResultSetHandler.doList(rs)` does, as functions of the cursor's table, its
    position and the handler's cache, and what follows from that: the cache-hit rule, the
    column-discovery loop as written, the row loop, and what two calls in a row return. */
module HandlerSpec {
  import opened Exits
  import opened Jdbc

  /** One materialised row: column label to column text. */
  type Record = map<string, string>

  /** The outcome of one call, the cache it leaves and the cursor position it leaves. */
  datatype Effect = Effect(exit: Exit<Option<seq<Record>>>, cache: Option<seq<Record>>, pos: nat)

  /** What the row loop leaves: whether a cursor call threw, the records appended to the cache
      and the cursor position. */
  datatype Drained = Drained(failed: bool, records: seq<Record>, pos: nat)

  /** The list a call reports for a cache: null when the cache is null or empty, the cache
      itself otherwise (the cache-hit answer, and the answer after a fresh read). */
  function Answer(cache: Option<seq<Record>>): (r: Option<seq<Record>>)
    ensures r.None? <==> cache.None? || cache.value == []
    ensures r.Some? ==> r == cache
  {
    if cache.Some? && cache.value != [] then cache else None
  }

  /** The column-discovery loop as written: it starts at column 1, runs while the column count is
      at most the current column, and never moves to the next column. */
  function ColumnLoop(md: Metadata): (r: Exit<map<string, int>>)
    ensures md.ColumnCount() >= 2 ==> r == Return(map[])
    ensures md.ColumnCount() == 1 ==> r == Hang
    ensures md.ColumnCount() == 0 ==> r == Throw(SQLException)
  {
    if md.ColumnCount() > 1 then Return(map[])
    else if md.ColumnLabel(1).Return? then Hang
    else Throw(SQLException)
  }

  /** The record the row loop builds at cursor position `pos`: one entry per entry of `colmap`,
      holding `getString` of that column, or an exception if any such `getString` throws. */
  function RowRecord(t: Table, colmap: map<string, int>, pos: nat): Exit<Record> {
    if forall name :: name in colmap ==> Cell(t, pos, colmap[name]).Return?
    then Return(map name | name in colmap :: Cell(t, pos, colmap[name]).value)
    else Throw(SQLException)
  }

  /** Every column position in `colmap` exists in `row`. */
  predicate Covers(colmap: map<string, int>, row: seq<string>) {
    forall name :: name in colmap ==> 1 <= colmap[name] <= |row|
  }

  /** The record a row yields when `colmap` covers it. */
  function RowValues(colmap: map<string, int>, row: seq<string>): Record
    requires Covers(colmap, row)
  {
    map name | name in colmap :: row[colmap[name] - 1]
  }

  /** The records of `rows`: one per row, in row order. */
  function Records(colmap: map<string, int>, rows: seq<seq<string>>): (r: seq<Record>)
    requires forall row :: row in rows ==> Covers(colmap, row)
    ensures |r| == |rows|
    ensures forall i :: 0 <= i < |rows| ==> r[i] == RowValues(colmap, rows[i])
  {
    if rows == [] then [] else [RowValues(colmap, rows[0])] + Records(colmap, rows[1..])
  }

  /** The row loop: call `next()`; on true append the current row's record to `acc` and go on;
      on false stop; on an exception stop with what was appended so far. */
  function Drain(t: Table, colmap: map<string, int>, pos: nat, acc: seq<Record>): (r: Drained)
    requires pos <= |t.rows| + 1
    ensures pos <= r.pos <= |t.rows| + 1
    decreases |t.rows| + 1 - pos
  {
    var step := Advance(t, pos);
    if step.0.Throw? then Drained(true, acc, pos)
    else if !step.0.value then Drained(false, acc, step.1)
    else match RowRecord(t, colmap, step.1)
      case Return(record) => Drain(t, colmap, step.1, acc + [record])
      case _ => Drained(true, acc, step.1)
  }

  /** `doList(rs)` for a cursor other than the remembered one. A failing `getMetaData()` leaves
      the cache alone; from then on the cache has been replaced by a new list, which the row
      loop fills. */
  function Scan(t: Table, pos: nat, cache: Option<seq<Record>>): (r: Effect)
    requires pos <= |t.rows| + 1
    ensures pos <= r.pos <= |t.rows| + 1
  {
    match MetaData(t)
    case Return(md) =>
      (match ColumnLoop(md)
       case Return(colmap) =>
         var d := Drain(t, colmap, pos, []);
         Effect(if d.failed then Throw(SQLException) else Return(Answer(Some(d.records))),
                Some(d.records), d.pos)
       case Throw(e) => Effect(Throw(e), Some([]), pos)
       case Hang => Effect(Hang, Some([]), pos))
    case Throw(e) => Effect(Throw(e), cache, pos)
    case Hang => Effect(Hang, cache, pos)
  }

  /** `doList(rs)` for a non-null `rs`: `hit` says whether `rs` is the remembered cursor. */
  function Call(hit: bool, t: Table, pos: nat, cache: Option<seq<Record>>): Effect
    requires pos <= |t.rows| + 1
  {
    if hit then Effect(Return(Answer(cache)), cache, pos) else Scan(t, pos, cache)
  }

  /** `doList(rs).stream()`: the list's records in order, or a null dereference when the list
      is null. */
  function StreamOf(listed: Exit<Option<seq<Record>>>): (r: Exit<seq<Record>>)
    ensures listed.Return? ==> (r == Throw(NullPointerException) <==> listed.value.None?)
    ensures listed.Return? && listed.value.Some? ==> r == Return(listed.value.value)
    ensures !listed.Return? ==> r == listed.PropagateFailure()
  {
    match listed
    case Return(None) => Throw(NullPointerException)
    case Return(Some(list)) => Return(list)
    case Throw(e) => Throw(e)
    case Hang => Hang
  }

  /** No call of `next()` that a full pass from `pos` makes throws: from a position on or before
      the last row the pass calls `next()` at `pos..|rows|`, from after the last row only once,
      at `pos`. */
  predicate Healthy(t: Table, pos: nat) {
    t.nextFailsAt.None?
    || !(pos <= t.nextFailsAt.value && (t.nextFailsAt.value <= |t.rows| || t.nextFailsAt.value == pos))
  }

  lemma RowRecordCovered(t: Table, colmap: map<string, int>, pos: nat)
    requires 1 <= pos <= |t.rows| && Covers(colmap, t.rows[pos - 1])
    ensures RowRecord(t, colmap, pos) == Return(RowValues(colmap, t.rows[pos - 1]))
  {
    assert forall name :: name in colmap ==> Cell(t, pos, colmap[name]).Return?;
    assert (map name | name in colmap :: Cell(t, pos, colmap[name]).value)
        == RowValues(colmap, t.rows[pos - 1]);
  }

  /** One pass of the row loop over a covered row: `next()` moves onto row `pos` and that row's
      record is appended. */
  lemma DrainStep(t: Table, colmap: map<string, int>, pos: nat, acc: seq<Record>)
    requires pos < |t.rows| && t.nextFailsAt != Some(pos) && Covers(colmap, t.rows[pos])
    ensures Drain(t, colmap, pos, acc) == Drain(t, colmap, pos + 1, acc + [RowValues(colmap, t.rows[pos])])
  {
    assert Advance(t, pos) == (Return(true), pos + 1);
    RowRecordCovered(t, colmap, pos + 1);
  }

  /** On a cursor whose `next()` does not fail, the row loop appends one record per remaining
      row, in cursor order, and leaves the cursor after its last row. */
  lemma {:induction false} DrainReadsRemaining(t: Table, colmap: map<string, int>, pos: nat, acc: seq<Record>)
    requires pos <= |t.rows| + 1 && Healthy(t, pos)
    requires forall row :: row in Remaining(t, pos) ==> Covers(colmap, row)
    ensures Drain(t, colmap, pos, acc)
         == Drained(false, acc + Records(colmap, Remaining(t, pos)), |t.rows| + 1)
    decreases |t.rows| + 1 - pos
  {
    if pos < |t.rows| {
      var rest := Remaining(t, pos);
      assert rest[0] == t.rows[pos] && rest[1..] == Remaining(t, pos + 1);
      var record := RowValues(colmap, t.rows[pos]);
      DrainStep(t, colmap, pos, acc);
      DrainReadsRemaining(t, colmap, pos + 1, acc + [record]);
      assert acc + [record] + Records(colmap, rest[1..]) == acc + Records(colmap, rest);
    }
  }

  /** When the call of `next()` made at position `k` throws, the row loop stops there with the
      records of the rows it passed before `k`. */
  lemma {:induction false} DrainStopsAtFailure(t: Table, colmap: map<string, int>, pos: nat, acc: seq<Record>, k: nat)
    requires pos <= k <= |t.rows| && t.nextFailsAt == Some(k)
    requires forall row :: row in t.rows[pos..k] ==> Covers(colmap, row)
    ensures Drain(t, colmap, pos, acc) == Drained(true, acc + Records(colmap, t.rows[pos..k]), k)
    decreases k - pos
  {
    if pos < k {
      var passed := t.rows[pos..k];
      assert passed[0] == t.rows[pos] && passed[1..] == t.rows[pos + 1..k];
      var record := RowValues(colmap, t.rows[pos]);
      DrainStep(t, colmap, pos, acc);
      DrainStopsAtFailure(t, colmap, pos + 1, acc + [record], k);
      assert acc + [record] + Records(colmap, passed[1..]) == acc + Records(colmap, passed);
    } else {
      assert t.rows[pos..k] == [];
    }
  }

  /** `doList(rs)` on a new cursor that reports two or more columns: the cache becomes one
      empty record per remaining row (the column map stays empty), the cursor ends exhausted,
      and the answer is null exactly when no row was appended, else the cache itself. */
  lemma ScanReadsEveryRow(t: Table, pos: nat, cache: Option<seq<Record>>)
    requires pos <= |t.rows| + 1 && Healthy(t, pos)
    requires !t.metadataFails && |t.labels| >= 2
    ensures var e := Scan(t, pos, cache);
      && e.cache.Some? && |e.cache.value| == |Remaining(t, pos)|
      && (forall i :: 0 <= i < |e.cache.value| ==> e.cache.value[i] == map[])
      && e.exit == Return(if Remaining(t, pos) == [] then None else e.cache)
      && e.pos == |t.rows| + 1
  {
    DrainReadsRemaining(t, map[], pos, []);
  }

  /** Before any row is read: a failing `getMetaData()` leaves cache and cursor as they were;
      with no column, `getColumnLabel(1)` throws after the cache was replaced by an empty list;
      with exactly one column the column loop never exits. */
  lemma ScanBeforeRows(t: Table, pos: nat, cache: Option<seq<Record>>)
    requires pos <= |t.rows| + 1
    ensures t.metadataFails ==> Scan(t, pos, cache) == Effect(Throw(SQLException), cache, pos)
    ensures !t.metadataFails && |t.labels| == 0
         ==> Scan(t, pos, cache) == Effect(Throw(SQLException), Some([]), pos)
    ensures !t.metadataFails && |t.labels| == 1 ==> Scan(t, pos, cache).exit == Hang
  {
  }

  /** A `next()` that throws part-way leaves the cache holding the rows read so far: the cache of
      the earlier cursor is lost, and the new one is incomplete. */
  lemma ScanPartialOnFailure(t: Table, pos: nat, cache: Option<seq<Record>>, k: nat)
    requires pos <= k <= |t.rows| && t.nextFailsAt == Some(k)
    requires !t.metadataFails && |t.labels| >= 2
    ensures var e := Scan(t, pos, cache);
      && e.exit == Throw(SQLException) && e.pos == k
      && e.cache.Some? && |e.cache.value| == k - pos
      && (forall i :: 0 <= i < |e.cache.value| ==> e.cache.value[i] == map[])
  {
    DrainStopsAtFailure(t, map[], pos, [], k);
  }

  /** `doList(rs)` never makes `rs` the remembered cursor, so a second `doList(rs)` reads the
      now exhausted cursor again. With a driver that answers false after the last row, it
      returns null and empties the cache. */
  lemma RescanReturnsNothing(t: Table, pos: nat, cache: Option<seq<Record>>)
    requires pos <= |t.rows| + 1 && Healthy(t, pos) && Healthy(t, |t.rows| + 1)
    requires !t.metadataFails && |t.labels| >= 2
    ensures var first := Scan(t, pos, cache);
      Scan(t, first.pos, first.cache) == Effect(Return(None), Some([]), |t.rows| + 1)
  {
    ScanReadsEveryRow(t, pos, cache);
    var first := Scan(t, pos, cache);
    ScanReadsEveryRow(t, first.pos, first.cache);
  }

  /** The same second `doList(rs)` with a driver that throws when `next()` is called after the
      last row: the first read still returns every row, the second throws `SQLException` and
      leaves an empty cache. */
  lemma RescanOnThrowingDriver(t: Table, pos: nat, cache: Option<seq<Record>>)
    requires pos <= |t.rows| && t.nextFailsAt == Some(|t.rows| + 1)
    requires !t.metadataFails && |t.labels| >= 2
    ensures var first := Scan(t, pos, cache);
      && first.exit == Return(if Remaining(t, pos) == [] then None else first.cache)
      && first.pos == |t.rows| + 1
      && Scan(t, first.pos, first.cache) == Effect(Throw(SQLException), Some([]), |t.rows| + 1)
  {
    ScanReadsEveryRow(t, pos, cache);
  }

  /** The cache is keyed by a cursor that `doList(rs)` never updates: after reading another
      cursor `other`, a cache hit on the remembered cursor answers with `other`'s records. */
  lemma StaleAnswer(t: Table, pos: nat, other: Table, otherPos: nat, cache: Option<seq<Record>>)
    requires pos <= |t.rows| + 1
    requires otherPos < |other.rows| && Healthy(other, otherPos)
    requires !other.metadataFails && |other.labels| >= 2
    ensures var read := Call(false, other, otherPos, cache);
      var hit := Call(true, t, pos, read.cache);
      && hit == Effect(read.exit, read.cache, pos)
      && hit.exit.Return? && hit.exit.value.Some?
      && |hit.exit.value.value| == |other.rows| - otherPos
  {
    ScanReadsEveryRow(other, otherPos, cache);
  }
}
