/**
 Buffered writing of several columns.

 Rows are handled by chunks of the buffer size, every column in turn for each chunk, while the table grows.
 The result is that of the unbuffered form: every column in turn, all rows at once.
 */
module TableWrites {

  import opened Tables
  import opened ColumnKeys
  import opened FileMem
  import opened RowCounting
  import opened Cells

  /** Write a segment of a column in one go; CFITSIO refuses negative numbers of rows. */
  method WriteSegment<T>(file: TableFile<T>, rows: FileMemSegments, column: Column<T>) returns (ok: bool)
    requires file.Valid() && column.repeat >= 1
    requires var (f, m) := Resolved(rows.file, rows.memory, file.table.rows - 1, column.RowCount() - 1);
      f.front >= 0 && 0 <= m.front && m.front + f.Size() <= column.RowCount()
    requires var i := Find(file.table.columns, column.name);
      i.Some? ==> column.repeat == file.table.columns[i.value].repeat
    modifies file, rows
    ensures file.Valid()
    ensures var (f, _) := old(Resolved(rows.file, rows.memory, file.table.rows - 1, column.RowCount() - 1));
      ok <==> Find(old(file.table.columns), column.name).Some? && f.Size() >= 0
    ensures !ok ==> file.table == old(file.table)
    ensures ok ==>
      var (f, m) := old(Resolved(rows.file, rows.memory, file.table.rows - 1, column.RowCount() - 1));
      && Writable(old(file.table), column, m.front, f.Size())
      && file.table == if f.Size() == 0 then old(file.table)
                       else Put(old(file.table), column, f.front, m.front, f.Size())
    ensures var (f, m) := old(Resolved(rows.file, rows.memory, file.table.rows - 1, column.RowCount() - 1));
      ok && f.Size() > 0 ==> CellsWritten(old(file.table), [column], f.front, m.front, f.Size(), file.table)
  {
    rows.Resolve(file.table.rows - 1, column.RowCount() - 1);
    var f, m, n := rows.file.front, rows.memory.front, rows.file.Size();
    if Find(file.table.columns, column.name).None? || n < 0 {
      return false;
    }
    RowCapacity(|column.data|, column.repeat, m + n);
    if n > 0 {
      PutCells(file.table, column, f, m, n);
      file.table := Put(file.table, column, f, m, n);
    }
    return true;
  }

  /** One column written in one go, element by element. */
  lemma PutCells<T>(t: Table<T>, column: Column<T>, f: int, m: int, n: int)
    requires t.Valid() && Writable(t, column, m, n) && f >= 0
    ensures CellsWritten(t, [column], f, m, n, Put(t, column, f, m, n))
  {
    var r := Put(t, column, f, m, n);
    assert [column][0] == column;
    assert PutEach(t, [column], 0, f, m, n) == t;
    assert r == PutEach(t, [column], 1, f, m, n);
    PutEachWrites(t, [column], f, m, n, r);
    AllCellsWritten(t, [column], f, m, n, r);
  }

  /** The number of columns before the first one whose name is not that of a table column. */
  function FirstMissing<T>(table: Table<T>, columns: seq<Column<T>>): (q: nat)
    ensures q <= |columns|
    ensures forall j :: 0 <= j < q ==> Find(table.columns, columns[j].name).Some?
    ensures q < |columns| ==> Find(table.columns, columns[q].name).None?
  {
    MissingFrom(table, columns, 0)
  }

  function MissingFrom<T>(table: Table<T>, columns: seq<Column<T>>, i: nat): (q: nat)
    requires i <= |columns|
    ensures i <= q <= |columns|
    ensures forall j :: i <= j < q ==> Find(table.columns, columns[j].name).Some?
    ensures q < |columns| ==> Find(table.columns, columns[q].name).None?
    decreases |columns| - i
  {
    if i == |columns| || Find(table.columns, columns[i].name).None? then i else MissingFrom(table, columns, i + 1)
  }

  /** A column holds `rows` rows, and has the layout of the table column it is for. */
  ghost predicate CanHold<T>(table: Table<T>, column: Column<T>, rows: int)
  {
    && column.repeat >= 1 && rows <= column.RowCount()
    && (Find(table.columns, column.name).Some? ==>
      column.repeat == table.columns[Find(table.columns, column.name).value].repeat)
  }

  ghost predicate HoldRows<T>(table: Table<T>, columns: seq<Column<T>>, rows: int)
  {
    forall j :: 0 <= j < |columns| ==> CanHold(table, columns[j], rows)
  }

  lemma HoldAreWritable<T>(table: Table<T>, columns: seq<Column<T>>, rows: int, q: nat, m: int, n: int)
    requires HoldRows(table, columns, rows) && q <= FirstMissing(table, columns)
    requires 0 <= m && 0 <= n && m + n <= rows
    ensures AllWritable(table, columns, q, m, n)
  {
    forall j | 0 <= j < q ensures Writable(table, columns[j], m, n) {
      RowCapacity(|columns[j].data|, columns[j].repeat, m + n);
    }
  }

  lemma HoldSame<T>(t: Table<T>, u: Table<T>, columns: seq<Column<T>>, rows: int)
    requires HoldRows(t, columns, rows) && SameColumns(t, u)
    ensures HoldRows(u, columns, rows) && FirstMissing(u, columns) == FirstMissing(t, columns)
  {
    forall j | 0 <= j < |columns|
      ensures Find(u.columns, columns[j].name) == Find(t.columns, columns[j].name)
    {
      FindSame(t, u, columns[j].name);
    }
  }

  /** Write one chunk of one column. */
  method WriteColumnChunk<T>(file: TableFile<T>, column: Column<T>, front: int, mem: Segment) returns (ok: bool)
    requires file.Valid() && front >= 0 && mem.front >= 0 && mem.Size() > 0
    requires column.repeat >= 1 && mem.back < column.RowCount()
    requires Find(file.table.columns, column.name).Some? ==>
      column.repeat == file.table.columns[Find(file.table.columns, column.name).value].repeat
    modifies file
    ensures file.Valid()
    ensures ok <==> Find(old(file.table.columns), column.name).Some?
    ensures !ok ==> file.table == old(file.table)
    ensures ok ==> Writable(old(file.table), column, mem.front, mem.Size())
    ensures ok ==> file.table == Put(old(file.table), column, front, mem.front, mem.Size())
  {
    var rows := new FileMemSegments.FromMemory(front, mem);
    MemorySegmentCondition(front, mem, file.table.rows - 1, column.RowCount() - 1);
    ok := WriteSegment(file, rows, column);
  }

  /**
   The table is `tables[j]` before one chunk of the column `j` is written, and `tables[j + 1]` after it, if the
   table has such a column, that is if `j` is not `q`.
   */
  ghost predicate IsStep<T>(tables: seq<Table<T>>, columns: seq<Column<T>>, q: nat, rows: int, f: int, m: int, n: int,
                            j: nat)
    requires q < |tables| && j < |columns| && j <= q
  {
    && CanHold(tables[j], columns[j], rows)
    && (Find(tables[j].columns, columns[j].name).Some? <==> j < q)
    && (j < q ==>
      && tables[j].Valid() && f >= 0 && Writable(tables[j], columns[j], m, n)
      && tables[j + 1] == Put(tables[j], columns[j], f, m, n))
  }

  ghost predicate AreSteps<T>(tables: seq<Table<T>>, columns: seq<Column<T>>, q: nat, rows: int, f: int, m: int, n: int)
  {
    && q < |tables| && q <= |columns|
    && forall j :: 0 <= j <= q && j < |columns| ==> IsStep(tables, columns, q, rows, f, m, n, j)
  }

  /** The tables after each of the first columns. */
  ghost function Steps<T>(t: Table<T>, columns: seq<Column<T>>, q: nat, f: int, m: int, n: int): (r: seq<Table<T>>)
    requires t.Valid() && f >= 0 && AllWritable(t, columns, q, m, n)
    ensures |r| == q + 1 && forall j :: 0 <= j <= q ==> r[j] == PutEach(t, columns, j, f, m, n)
  {
    seq(q + 1, j requires 0 <= j <= q => PutEach(t, columns, j, f, m, n))
  }

  lemma StepOfSteps<T>(t: Table<T>, columns: seq<Column<T>>, q: nat, rows: int, f: int, m: int, n: int, j: nat)
    requires t.Valid() && f >= 0 && AllWritable(t, columns, q, m, n) && j < |columns| && j <= q
    requires CanHold(t, columns[j], rows) && (j == q ==> Find(t.columns, columns[j].name).None?)
    ensures IsStep(Steps(t, columns, q, f, m, n), columns, q, rows, f, m, n, j)
  {
    var u := PutEach(t, columns, j, f, m, n);
    FindSame(t, u, columns[j].name);
    if j < q {
      assert Writable(t, columns[j], m, n);
    }
  }

  /** Write one chunk of each column, up to the column `q`, which the table does not have. */
  method WriteColumns<T>(file: TableFile<T>, columns: seq<Column<T>>, front: int, mem: Segment,
                         ghost tables: seq<Table<T>>, ghost q: nat)
    returns (ok: bool)
    requires file.Valid() && front >= 0 && mem.front >= 0 && mem.Size() > 0
    requires AreSteps(tables, columns, q, mem.back + 1, front, mem.front, mem.Size()) && file.table == tables[0]
    modifies file
    ensures file.Valid() && file.table == tables[q] && (ok <==> q == |columns|)
  {
    for j := 0 to |columns|
      invariant j <= q && file.Valid() && file.table == tables[j]
    {
      assert IsStep(tables, columns, q, mem.back + 1, front, mem.front, mem.Size(), j);
      ok := WriteColumnChunk(file, columns[j], front, mem);
      if !ok {
        return;
      }
    }
    ok := true;
  }

  /** Write one chunk of each column, up to the first one that the table does not have. */
  method WriteChunk<T>(file: TableFile<T>, columns: seq<Column<T>>, front: int, mem: Segment, ghost t: Table<T>)
    returns (ok: bool)
    requires file.Valid() && file.table == t && front >= 0 && mem.front >= 0 && mem.Size() > 0
    requires HoldRows(t, columns, mem.back + 1)
    modifies file
    ensures file.Valid()
    ensures ok <==> FirstMissing(t, columns) == |columns|
    ensures AllWritable(t, columns, FirstMissing(t, columns), mem.front, mem.Size())
    ensures file.table == PutEach(t, columns, FirstMissing(t, columns), front, mem.front, mem.Size())
  {
    ghost var q, rows, m, n := FirstMissing(t, columns), mem.back + 1, mem.front, mem.Size();
    HoldAreWritable(t, columns, rows, q, m, n);
    ghost var tables := Steps(t, columns, q, front, m, n);
    forall j | 0 <= j <= q && j < |columns| ensures IsStep(tables, columns, q, rows, front, m, n, j) {
      StepOfSteps(t, columns, q, rows, front, m, n, j);
    }
    ok := WriteColumns(file, columns, front, mem, tables, q);
  }

  /** `k` rows of each column are written at the row `f`; nothing is if there is no row or no column. */
  ghost predicate WrittenSoFar<T>(t: Table<T>, columns: seq<Column<T>>, f: int, m: int, k: int, u: Table<T>)
  {
    if k == 0 || columns == [] then u == t else AreWritten(t, columns, f, m, k, u)
  }

  /** One more chunk; `f1` and `m1` are `k` rows further than `f` and `m`, and `n` is `k + w`. */
  lemma NextWritten<T>(t: Table<T>, columns: seq<Column<T>>, f: int, m: int, k: int, f1: int, m1: int, w: int, n: int,
                       u: Table<T>, v: Table<T>)
    requires t.Valid() && u.Valid() && f >= 0 && k >= 0 && w > 0 && f1 == f + k && m1 == m + k && n == k + w
    requires WrittenSoFar(t, columns, f, m, k, u)
    requires AllWritable(u, columns, |columns|, m1, w) && v == PutEach(u, columns, |columns|, f1, m1, w)
    ensures WrittenSoFar(t, columns, f, m, n, v)
  {
    if columns != [] {
      PutEachWrites(u, columns, f1, m1, w, v);
      if k > 0 {
        WrittenInChunks(t, columns, f, m, k, f1, m1, w, n, u, v);
      } else {
        assert f1 == f && m1 == m && w == n;
      }
    }
  }

  /** The result of writing the rows `mems` of the columns at the row `f`, in chunks of at most `buffer` rows. */
  ghost predicate WriteOutcome<T>(t: Table<T>, columns: seq<Column<T>>, f: int, mems: Segment, buffer: int,
                                  r: Table<T>, ok: bool)
  {
    && (ok <==> mems.Size() <= 0 || FirstMissing(t, columns) == |columns|)
    && (ok ==> WrittenSoFar(t, columns, f, mems.front, Max(0, mems.Size()), r))
    && (!ok ==> FirstChunkOnly(t, columns, FirstMissing(t, columns), f, mems.front, Min(buffer, mems.Size()), r))
  }

  /** Only the first chunk was written, for the columns before the one that is missing. */
  ghost predicate FirstChunkOnly<T>(t: Table<T>, columns: seq<Column<T>>, q: nat, f: int, m: int, w: int, r: Table<T>)
  {
    t.Valid() && f >= 0 && AllWritable(t, columns, q, m, w) && r == PutEach(t, columns, q, f, m, w)
  }

  function Min(a: int, b: int): (r: int)
  {
    if a < b then a else b
  }

  /** Write one more chunk after `k` rows; `f1` and `m1` are `k` rows further than `f` and `m`, and `k1` is next. */
  method WriteNextChunk<T>(file: TableFile<T>, columns: seq<Column<T>>, f1: int, mem: Segment, ghost t: Table<T>,
                           ghost f: int, ghost m: int, ghost k: int, ghost m1: int, ghost w: int, ghost k1: int)
    returns (ok: bool)
    requires file.Valid() && t.Valid() && SameColumns(t, file.table) && HoldRows(t, columns, mem.back + 1)
    requires f >= 0 && m >= 0 && k >= 0 && f1 == f + k && m1 == m + k && w > 0 && k1 == k + w
    requires mem.front == m1 && mem.Size() == w
    requires WrittenSoFar(t, columns, f, m, k, file.table) && (k > 0 ==> FirstMissing(t, columns) == |columns|)
    modifies file
    ensures file.Valid() && (ok <==> FirstMissing(t, columns) == |columns|)
    ensures ok ==> WrittenSoFar(t, columns, f, m, k1, file.table) && SameColumns(t, file.table)
    ensures !ok ==> k == 0 && FirstChunkOnly(t, columns, FirstMissing(t, columns), f, m, w, file.table)
  {
    ghost var u := file.table;
    HoldSame(t, u, columns, mem.back + 1);
    ok := WriteChunk(file, columns, f1, mem, u);
    if ok {
      NextWritten(t, columns, f, m, k, f1, m1, w, k1, u, file.table);
    } else {
      assert k == 0 && u == t && f1 == f && m1 == m;
    }
  }

  /** The chunk loop. */
  method WriteChunks<T>(file: TableFile<T>, columns: seq<Column<T>>, f: int, mems: Segment, ghost t: Table<T>)
    returns (ok: bool)
    requires file.Valid() && file.table == t && f >= 0 && mems.front >= 0
    requires HoldRows(t, columns, mems.back + 1)
    modifies file
    ensures file.Valid() && WriteOutcome(t, columns, f, mems, file.bufferRows, file.table, ok)
  {
    ghost var m, n, k := mems.front, Max(0, mems.Size()), 0;
    var buffer, last := file.bufferRows, mems.back;
    var mem, segment := FromSize(mems.front, buffer), FromSize(f, buffer);
    while mem.front <= last
      invariant file.Valid() && SameColumns(t, file.table)
      invariant mem.front <= last ==> mem.back == mem.front + buffer - 1
      invariant mem.front - m == segment.front - f >= 0
      invariant k == if mem.front - m < n then mem.front - m else n
      invariant WrittenSoFar(t, columns, f, m, k, file.table)
      invariant k > 0 ==> FirstMissing(t, columns) == |columns|
      decreases last - mem.front
    {
      if mem.back > last {
        mem := mem.(back := last);
      }
      ghost var k1 := k + mem.Size();
      ok := WriteNextChunk(file, columns, segment.front, mem, t, f, m, k, mem.front, mem.Size(), k1);
      if !ok {
        assert mem.Size() == Min(buffer, mems.Size());
        return;
      }
      k := k1;
      mem := Segment(mem.front + buffer, mem.back + buffer);
      segment := Segment(segment.front + buffer, segment.back + buffer);
    }
    ok := true;
  }

  method CountColumnRows<T>(columns: seq<Column<T>>) returns (counts: seq<int>)
    requires forall j :: 0 <= j < |columns| ==> columns[j].repeat >= 1
    ensures counts == ColumnCounts(columns)
    ensures forall j :: 0 <= j < |counts| ==> counts[j] >= 0
  {
    counts := [];
    for j := 0 to |columns|
      invariant |counts| == j && forall l :: 0 <= l < j ==> counts[l] == columns[l].RowCount() >= 0
    {
      RowCapacity(|columns[j].data|, columns[j].repeat, 0);
      counts := counts + [columns[j].RowCount()];
    }
  }

  ghost function ColumnCounts<T>(columns: seq<Column<T>>): (r: seq<int>)
    requires forall j :: 0 <= j < |columns| ==> columns[j].repeat >= 1
  {
    seq(|columns|, j requires 0 <= j < |columns| => columns[j].RowCount())
  }

  /** The resolved segments can be written from these columns. */
  ghost predicate CanWrite<T>(t: Table<T>, columns: seq<Column<T>>, resolved: (Segment, Segment))
  {
    resolved.0.front >= 0 && resolved.1.front >= 0 && HoldRows(t, columns, resolved.1.back + 1)
  }

  method ResolveForWriting<T>(file: TableFile<T>, rows: FileMemSegments, columns: seq<Column<T>>, ghost t: Table<T>)
    returns (same: bool)
    requires file.table == t && forall j :: 0 <= j < |columns| ==> columns[j].repeat >= 1
    modifies rows
    ensures same <==> AllEqual(ColumnCounts(columns))
    ensures same ==>
      (rows.file, rows.memory) ==
        old(Resolved(rows.file, rows.memory, t.rows - 1, CommonCount(ColumnCounts(columns)) - 1))
  {
    var counts := CountColumnRows(columns);
    var count := RowCountOf(counts);
    if count.None? {
      return false;
    }
    rows.Resolve(file.table.rows - 1, count.value - 1);
    return true;
  }

  /** Write several columns chunk by chunk. */
  method WriteSegmentSeq<T>(file: TableFile<T>, rows: FileMemSegments, columns: seq<Column<T>>, ghost t: Table<T>)
    returns (status: Status)
    requires file.Valid() && file.table == t && forall j :: 0 <= j < |columns| ==> columns[j].repeat >= 1
    requires AllEqual(ColumnCounts(columns)) ==>
      CanWrite(t, columns, Resolved(rows.file, rows.memory, t.rows - 1, CommonCount(ColumnCounts(columns)) - 1))
    modifies file, rows
    ensures file.Valid()
    ensures status.RowCountsDiffer? <==> !AllEqual(ColumnCounts(columns))
    ensures status.RowCountsDiffer? ==> file.table == t
    ensures !status.RowCountsDiffer? ==>
      (rows.file, rows.memory) ==
        old(Resolved(rows.file, rows.memory, t.rows - 1, CommonCount(ColumnCounts(columns)) - 1))
    ensures !status.RowCountsDiffer? ==>
      WriteOutcome(t, columns, rows.file.front, rows.memory, file.bufferRows, file.table, status.Done?)
    ensures status.Done? && columns != [] && rows.memory.Size() > 0 ==>
      CellsWritten(t, columns, rows.file.front, rows.memory.front, rows.memory.Size(), file.table)
  {
    ghost var resolved := Resolved(rows.file, rows.memory, t.rows - 1, CommonCount(ColumnCounts(columns)) - 1);
    var same := ResolveForWriting(file, rows, columns, t);
    if !same {
      return RowCountsDiffer;
    }
    assert (rows.file, rows.memory) == resolved;
    var f, mems := rows.file.front, rows.memory;
    var ok := WriteChunks(file, columns, f, mems, t);
    if ok && columns != [] && mems.Size() > 0 {
      OutcomeCells(t, columns, f, mems, file.bufferRows, file.table);
    }
    return if ok then Done else CfitsioError;
  }

  /** A successful write, element by element. */
  lemma OutcomeCells<T>(t: Table<T>, columns: seq<Column<T>>, f: int, mems: Segment, buffer: int, r: Table<T>)
    requires t.Valid() && f >= 0 && columns != [] && mems.Size() > 0
    requires WriteOutcome(t, columns, f, mems, buffer, r, true)
    ensures CellsWritten(t, columns, f, mems.front, mems.Size(), r)
  {
    assert AllHaveColumn(t, columns);
    AllCellsWritten(t, columns, f, mems.front, mems.Size(), r);
  }

  /** The outcome of a successful write is that of writing each column in one go. */
  lemma WrittenIsUnbuffered<T>(t: Table<T>, columns: seq<Column<T>>, f: int, m: int, n: int, r: Table<T>)
    requires t.Valid() && f >= 0 && n > 0 && columns != [] && WrittenSoFar(t, columns, f, m, n, r)
    requires AllWritable(t, columns, |columns|, m, n)
    ensures r == PutEach(t, columns, |columns|, f, m, n)
  {
    var u := PutEach(t, columns, |columns|, f, m, n);
    PutEachWrites(t, columns, f, m, n, u);
    WrittenUnique(t, columns, f, m, n, r, u);
  }

  lemma EqualCountsHold<T>(t: Table<T>, columns: seq<Column<T>>)
    requires columns != [] && HoldRows(t, columns, 0) && AllEqual(ColumnCounts(columns))
    ensures columns[0].RowCount() >= 0 && HoldRows(t, columns, columns[0].RowCount())
  {
    forall j | 0 <= j < |columns| ensures columns[j].RowCount() == columns[0].RowCount() {
      assert ColumnCounts(columns)[j] == ColumnCounts(columns)[0];
    }
  }

  /** The number of rows of a segment of the memory, which may be open-ended. */
  function RowsIn(segment: Segment, count: int): (r: int)
  {
    if segment.back == -1 then count - segment.front else segment.Size()
  }

  /**
   Append a segment of columns to the table, at the file row -1.  The table gets one row for each row of the
   segment, below all the rows it had.
   */
  method AppendRows<T>(file: TableFile<T>, columns: seq<Column<T>>, segment: Segment, ghost t: Table<T>, ghost n: int)
    returns (status: Status)
    requires file.Valid() && file.table == t && columns != [] && HoldRows(t, columns, 0)
    requires n == RowsIn(segment, columns[0].RowCount()) >= 0
    requires 0 <= segment.front && segment.front + n <= columns[0].RowCount()
    modifies file
    ensures file.Valid()
    ensures status.RowCountsDiffer? <==> !AllEqual(ColumnCounts(columns))
    ensures status.Done? <==> AllEqual(ColumnCounts(columns)) && (n == 0 || FirstMissing(t, columns) == |columns|)
    ensures status.Done? ==> file.table.rows == t.rows + n && SameColumns(t, file.table)
    ensures status.Done? && n > 0 ==> forall i :: 0 <= i < |t.columns| ==>
      ColumnAppended(t.columns[i], t.fill, WriterOf(t, columns, |columns|, i), segment.front, n,
                     file.table.columns[i].data)
    ensures status.Done? && n > 0 ==> CellsWritten(t, columns, t.rows, segment.front, n, file.table)
    ensures status.Done? && n == 0 ==> file.table == t
  {
    var rows := new FileMemSegments.FromMemory(-1, segment);
    if AllEqual(ColumnCounts(columns)) {
      EqualCountsHold(t, columns);
    }
    MemorySegmentCondition(-1, segment, t.rows - 1, columns[0].RowCount() - 1);
    status := WriteSegmentSeq(file, rows, columns, t);
    if status.Done? && n > 0 {
      assert rows.file.front == t.rows && rows.memory.front == segment.front && rows.memory.Size() == n;
      WrittenAtEnd(t, columns, segment.front, n, file.table);
    }
  }

  /**
   The same in one go: with an explicit segment, the file segment is not that of the rows after the table.
   The rows 0 to 2 appended to ten rows would go to the rows 10 to 1, which CFITSIO refuses.
   */
  lemma UnbufferedAppendFails()
    ensures ResolvedFromMemory(-1, Segment(0, 2), 9, 2) == (Segment(10, 1), Segment(0, 2))
    ensures Segment(10, 1).Size() < 0
  {
  }
}
