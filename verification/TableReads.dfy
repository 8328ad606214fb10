/**
 Buffered reading of several columns.

 Rows are handled by chunks of the buffer size, every column in turn for each chunk.  The result is that
 of the unbuffered form: every column in turn, all rows at once.
 */
module TableReads {

  import opened Wrappers
  import opened Tables
  import opened ColumnKeys
  import opened FileMem
  import opened RowCounting
  import opened Cells

  type Repeat = r: int | r >= 1 witness 1

  /** A column in memory, filled in place. */
  class ColumnBuffer<T> {
    const name: string
    const repeat: Repeat
    var data: seq<T>

    function RowCount(): (r: int)
      reads this
    {
      |data| / repeat
    }

    constructor (name: string, repeat: Repeat, data: seq<T>)
      ensures this.name == name && this.repeat == repeat && this.data == data
    {
      this.name := name;
      this.repeat := repeat;
      this.data := data;
    }
  }

  /** CFITSIO can read `n` rows from the row `f` of that column; it refuses negative numbers of rows. */
  predicate Readable<T>(table: Table<T>, target: Option<int>, f: int, n: int)
  {
    && target.Some? && n >= 0
    && (n == 0 || (0 <= target.value < |table.columns| && 0 <= f && f + n <= table.rows))
  }

  /** The rows `f` on of the table column were read to the rows `m` on of a column. */
  ghost predicate ColumnRead<T>(
    table: Table<T>, target: Option<int>, repeat: int, f: int, m: int, n: int, was: seq<T>, now: seq<T>)
  {
    && |now| == |was|
    && (n == 0 ==> now == was)
    && (n > 0 ==>
      && table.Valid() && Readable(table, target, f, n) && repeat == table.columns[target.value].repeat
      && 0 <= m && 0 <= m * repeat && (m + n) * repeat <= |was|
      && (f + n) * repeat <= |table.columns[target.value].data|
      && m * repeat + n * repeat == (m + n) * repeat
      && now == Overwritten(was, m * repeat, Rows(table.columns[target.value].data, repeat, f, n)))
  }

  lemma ReadInChunks<T>(table: Table<T>, target: Option<int>, repeat: int, f: int, m: int, k: int, w: int,
                        was: seq<T>, now: seq<T>, next: seq<T>)
    requires 0 <= k && 0 < w
    requires ColumnRead(table, target, repeat, f, m, k, was, now)
    requires ColumnRead(table, target, repeat, f + k, m + k, w, now, next)
    requires 0 <= f && 0 <= m
    ensures ColumnRead(table, target, repeat, f, m, k + w, was, next)
  {
    if k > 0 {
      var data := table.columns[target.value].data;
      RowBounds(repeat, m, k);
      RowBounds(repeat, m, k + w);
      assert (m + k) + w == m + (k + w) && (f + k) + w == f + (k + w);
      OverwrittenTwice(was, m * repeat, Rows(data, repeat, f, k), Rows(data, repeat, f + k, w));
      RowsConcatenate(data, repeat, f, k, w);
    }
  }

  /** Nothing changed outside of the rows `m` to `m + n - 1`. */
  ghost predicate KeptOutside<T>(repeat: int, m: int, n: int, was: seq<T>, now: seq<T>)
  {
    |now| == |was| && forall i :: 0 <= i < |was| && !(m * repeat <= i < (m + n) * repeat) ==> now[i] == was[i]
  }

  lemma ReadKeepsOutside<T>(table: Table<T>, target: Option<int>, repeat: int, f: int, m: int, k: int, n: int,
                            was: seq<T>, now: seq<T>)
    requires ColumnRead(table, target, repeat, f, m, k, was, now) && 0 <= k <= n && repeat >= 1 && 0 <= m
    ensures KeptOutside(repeat, m, n, was, now)
  {
    GrowthBounds(m + k, m + n, repeat);
  }

  /** Read a segment of a column in one go. */
  method ReadSegmentTo<T>(file: TableFile<T>, rows: FileMemSegments, key: ColumnKey, column: ColumnBuffer<T>)
    returns (ok: bool)
    requires file.Valid() && key.Valid()
    requires var (f, m) := Resolved(rows.file, rows.memory, file.table.rows - 1, column.RowCount() - 1);
      0 <= m.front && m.front + f.Size() <= column.RowCount()
    requires var target := key.Target(file.table.columns);
      target.Some? && 0 <= target.value < |file.table.columns| ==>
        column.repeat == file.table.columns[target.value].repeat
    modifies rows, key, column
    ensures var (f, m) := old(Resolved(rows.file, rows.memory, file.table.rows - 1, column.RowCount() - 1));
      && (ok <==> Readable(file.table, old(key.Target(file.table.columns)), f.front, f.Size()))
      && (ok ==> ColumnRead(file.table, old(key.Target(file.table.columns)), column.repeat, f.front, m.front, f.Size(),
                            old(column.data), column.data))
    ensures var (f, m) := old(Resolved(rows.file, rows.memory, file.table.rows - 1, column.RowCount() - 1));
      ok ==> forall row, e :: m.front <= row < m.front + f.Size() && 0 <= e < column.repeat ==>
        CellRead(file.table, old(key.Target(file.table.columns)), column.repeat, f.front, m.front, column.data, row, e)
    ensures var (f, _) := old(Resolved(rows.file, rows.memory, file.table.rows - 1, column.RowCount() - 1));
      var target := old(key.Target(file.table.columns));
      ok <==>
        && target.Some? && f.Size() >= 0
        && (f.Size() > 0 ==> 0 <= target.value < |file.table.columns| && 0 <= f.front && f.back < file.table.rows)
    ensures !ok ==> column.data == old(column.data)
  {
    rows.Resolve(file.table.rows - 1, column.RowCount() - 1);
    var n, f, m, e := rows.file.Size(), rows.file.front, rows.memory.front, column.repeat;
    var target := key.Index(file);
    if !Readable(file.table, target, f, n) {
      return false;
    }
    RowCapacity(|column.data|, e, m + n);
    RowBounds(e, m, n);
    if n > 0 {
      GrowthBounds(f + n, file.table.rows, e);
      ghost var was := column.data;
      column.data := Overwritten(column.data, m * e, Rows(file.table.columns[target.value].data, e, f, n));
      ColumnCells(file.table, target, e, f, m, n, was, column.data);
    }
    return true;
  }

  ghost predicate Distinct<T>(columns: seq<ColumnBuffer<T>>)
  {
    forall i, j :: 0 <= i < j < |columns| ==> columns[i] != columns[j]
  }

  /** Each key, once evaluated and passed on, stands for the target of the same rank. */
  ghost predicate KeysTarget<T>(keys: seq<ColumnKey>, targets: seq<Option<int>>, columns: seq<Column<T>>)
    reads keys
  {
    && |targets| <= |keys|
    && forall j :: 0 <= j < |targets| ==>
      keys[j].Valid() && PassedOn(keys[j].Target(columns), |columns|) == targets[j]
  }

  /** The data of all the columns. */
  ghost function Snapshot<T>(columns: seq<ColumnBuffer<T>>): (r: seq<seq<T>>)
    reads columns
    ensures |r| == |columns| && forall j :: 0 <= j < |columns| ==> r[j] == columns[j].data
  {
    if columns == [] then [] else Snapshot(columns[..|columns| - 1]) + [columns[|columns| - 1].data]
  }

  ghost function Repeats<T>(columns: seq<ColumnBuffer<T>>): (r: seq<int>)
    ensures |r| == |columns| && forall j :: 0 <= j < |r| ==> r[j] == columns[j].repeat
  {
    seq(|columns|, j requires 0 <= j < |columns| => columns[j].repeat)
  }

  /** The columns can hold `rows` rows, and have the layout of the table columns they are for. */
  ghost predicate Fit<T>(table: Table<T>, targets: seq<Option<int>>, repeats: seq<int>, rows: int, data: seq<seq<T>>)
  {
    && |data| == |targets| == |repeats|
    && forall j :: 0 <= j < |data| ==>
      && repeats[j] >= 1 && rows <= |data[j]| / repeats[j]
      && (targets[j].Some? && 0 <= targets[j].value < |table.columns| ==>
        repeats[j] == table.columns[targets[j].value].repeat)
  }

  /** What reading does to each element. */
  lemma ReadElement<T>(table: Table<T>, target: Option<int>, repeat: int, f: int, m: int, n: int, was: seq<T>,
                       now: seq<T>, r: int, e: int)
    requires ColumnRead(table, target, repeat, f, m, n, was, now) && 0 <= r < n && 0 <= e < repeat
    ensures target.Some? && 0 <= target.value < |table.columns|
    ensures 0 <= (m + r) * repeat + e < |now| && 0 <= (f + r) * repeat + e < |table.columns[target.value].data|
    ensures now[(m + r) * repeat + e] == table.columns[target.value].data[(f + r) * repeat + e]
  {
    var data := table.columns[target.value].data;
    RowsElement(data, repeat, f, n, r, e);
    CellOrder(repeat, m + r, e, m);
    CellOrder(repeat, m + r, e, m + n);
    assert (m + r) * repeat == m * repeat + r * repeat;
  }

  /** The elements of the rows `m` to `m + n - 1` of each column are those of the table from the row `f` on. */
  ghost predicate CellsRead<T>(table: Table<T>, targets: seq<Option<int>>, repeats: seq<int>, f: int, m: int, n: int,
                               now: seq<seq<T>>)
  {
    && |targets| == |repeats| == |now|
    && forall j, row, e :: 0 <= j < |now| && m <= row < m + n && 0 <= e < repeats[j] ==>
      CellRead(table, targets[j], repeats[j], f, m, now[j], row, e)
  }

  ghost predicate CellRead<T>(table: Table<T>, target: Option<int>, repeat: int, f: int, m: int, now: seq<T>, row: int,
                              e: int)
  {
    && target.Some? && 0 <= target.value < |table.columns| && Cell(now, repeat, row, e).Some?
    && Cell(now, repeat, row, e) == Cell(table.columns[target.value].data, repeat, f + (row - m), e)
  }

  lemma ColumnCells<T>(table: Table<T>, target: Option<int>, repeat: int, f: int, m: int, n: int, was: seq<T>,
                       now: seq<T>)
    requires ColumnRead(table, target, repeat, f, m, n, was, now)
    ensures forall row, e :: m <= row < m + n && 0 <= e < repeat ==>
      CellRead(table, target, repeat, f, m, now, row, e)
  {
    forall row, e | m <= row < m + n && 0 <= e < repeat ensures CellRead(table, target, repeat, f, m, now, row, e) {
      ReadElement(table, target, repeat, f, m, n, was, now, row - m, e);
    }
  }

  /** A successful read, element by element. */
  lemma OutcomeCells<T>(table: Table<T>, targets: seq<Option<int>>, repeats: seq<int>, f: int, mems: Segment,
                        was: seq<seq<T>>, now: seq<seq<T>>)
    requires ReadOutcome(table, targets, repeats, f, mems, was, now, true)
    ensures CellsRead(table, targets, repeats, f, mems.front, mems.Size(), now)
  {
    var m, n := mems.front, mems.Size();
    forall j, row, e | 0 <= j < |now| && m <= row < m + n && 0 <= e < repeats[j]
      ensures CellRead(table, targets[j], repeats[j], f, m, now[j], row, e)
    {
      assert ColumnRead(table, targets[j], repeats[j], f, m, n, was[j], now[j]);
      ReadElement(table, targets[j], repeats[j], f, m, n, was[j], now[j], row - m, e);
    }
  }

  /** `ColumnRead` for each column. */
  ghost predicate ColumnsRead<T>(table: Table<T>, targets: seq<Option<int>>, repeats: seq<int>, f: int, m: int, n: int,
                                 was: seq<seq<T>>, now: seq<seq<T>>)
  {
    && |targets| == |repeats| == |was| == |now|
    && forall j :: 0 <= j < |was| ==> ColumnRead(table, targets[j], repeats[j], f, m, n, was[j], now[j])
  }

  /** Each column was either read or left as it was. */
  ghost predicate SomeRead<T>(table: Table<T>, targets: seq<Option<int>>, repeats: seq<int>, f: int, m: int, n: int,
                              was: seq<seq<T>>, now: seq<seq<T>>)
  {
    && |targets| == |repeats| == |was| == |now|
    && forall j :: 0 <= j < |was| ==>
      now[j] == was[j] || ColumnRead(table, targets[j], repeats[j], f, m, n, was[j], now[j])
  }

  lemma StillFit<T>(table: Table<T>, targets: seq<Option<int>>, repeats: seq<int>, rows: int,
                    f: int, m: int, n: int, was: seq<seq<T>>, now: seq<seq<T>>)
    requires Fit(table, targets, repeats, rows, was) && ColumnsRead(table, targets, repeats, f, m, n, was, now)
    ensures Fit(table, targets, repeats, rows, now)
  {
    forall j | 0 <= j < |was| ensures |now[j]| == |was[j]| {
      assert ColumnRead(table, targets[j], repeats[j], f, m, n, was[j], now[j]);
    }
  }

  /** Evaluate a key of the list; those which stand for a column do not move any more. */
  method EvaluateKey<T>(file: TableFile<T>, keys: seq<ColumnKey>, j: nat, ghost targets: seq<Option<int>>)
    returns (index: Option<int>)
    requires j < |targets| && KeysTarget(keys, targets, file.table.columns)
    modifies keys
    ensures PassedOn(index, |file.table.columns|) == targets[j]
    ensures targets[j].Some? && targets[j].value >= 0 ==> KeysTarget(keys, targets, file.table.columns)
  {
    index := keys[j].Index(file);
  }

  /** Read one chunk of one column. */
  method ReadIndexChunk<T>(file: TableFile<T>, index: Option<int>, column: ColumnBuffer<T>, front: int, mem: Segment,
                           ghost target: Option<int>)
    returns (ok: bool)
    requires file.Valid() && front >= 0 && mem.front >= 0 && mem.Size() > 0
    requires mem.back < column.RowCount() && PassedOn(index, |file.table.columns|) == target
    requires target.Some? && 0 <= target.value < |file.table.columns| ==>
      column.repeat == file.table.columns[target.value].repeat
    modifies column
    ensures ok <==> Readable(file.table, target, front, mem.Size())
    ensures ok ==>
      ColumnRead(file.table, target, column.repeat, front, mem.front, mem.Size(), old(column.data), column.data)
    ensures !ok ==> column.data == old(column.data)
  {
    if index.None? {
      return false;
    }
    var key := new ColumnKey.FromIndex(index.value);
    var rows := new FileMemSegments.FromMemory(front, mem);
    MemorySegmentCondition(front, mem, file.table.rows - 1, column.RowCount() - 1);
    ok := ReadSegmentTo(file, rows, key, column);
  }

  /** Read one chunk of one column among others. */
  method ReadColumnChunk<T>(file: TableFile<T>, index: Option<int>, columns: seq<ColumnBuffer<T>>, j: nat,
                            front: int, mem: Segment, ghost target: Option<int>)
    returns (ok: bool, ghost data: seq<T>)
    requires j < |columns| && Distinct(columns)
    requires file.Valid() && front >= 0 && mem.front >= 0 && mem.Size() > 0
    requires mem.back < columns[j].RowCount() && PassedOn(index, |file.table.columns|) == target
    requires target.Some? && 0 <= target.value < |file.table.columns| ==>
      columns[j].repeat == file.table.columns[target.value].repeat
    modifies columns[j]
    ensures Snapshot(columns) == old(Snapshot(columns))[j := data]
    ensures ok <==> Readable(file.table, target, front, mem.Size())
    ensures ok ==> ColumnRead(file.table, target, columns[j].repeat, front, mem.front, mem.Size(),
                              old(columns[j].data), data)
    ensures !ok ==> data == old(columns[j].data)
  {
    ok := ReadIndexChunk(file, index, columns[j], front, mem, target);
    data := columns[j].data;
  }

  /** Read one chunk of the column `j`. */
  method ReadKeyChunk<T>(file: TableFile<T>, keys: seq<ColumnKey>, columns: seq<ColumnBuffer<T>>, j: nat,
                         front: int, mem: Segment, ghost targets: seq<Option<int>>, ghost was: seq<seq<T>>)
    returns (ok: bool, ghost data: seq<T>)
    requires file.Valid() && front >= 0 && mem.front >= 0 && mem.Size() > 0 && j < |columns|
    requires Distinct(columns) && KeysTarget(keys, targets, file.table.columns)
    requires was == Snapshot(columns)
    requires |targets| == |columns| && mem.back < |was[j]| / columns[j].repeat
    requires targets[j].Some? && 0 <= targets[j].value < |file.table.columns| ==>
      columns[j].repeat == file.table.columns[targets[j].value].repeat
    modifies keys, columns[j]
    ensures ok ==> KeysTarget(keys, targets, file.table.columns)
    ensures Snapshot(columns) == was[j := data]
    ensures ok <==> Readable(file.table, targets[j], front, mem.Size())
    ensures ok ==> ColumnRead(file.table, targets[j], columns[j].repeat, front, mem.front, mem.Size(), was[j], data)
    ensures !ok ==> data == was[j]
  {
    var index := EvaluateKey(file, keys, j, targets);
    ok, data := ReadColumnChunk(file, index, columns, j, front, mem, targets[j]);
  }

  /** The first `j` columns were read, the others left as they were. */
  ghost predicate FirstRead<T>(table: Table<T>, targets: seq<Option<int>>, repeats: seq<int>, f: int, m: int, n: int,
                               was: seq<seq<T>>, now: seq<seq<T>>, j: nat)
  {
    && |targets| == |repeats| == |was| == |now|
    && (forall l :: 0 <= l < j && l < |was| ==>
      Readable(table, targets[l], f, n) && ColumnRead(table, targets[l], repeats[l], f, m, n, was[l], now[l]))
    && (forall l :: j <= l < |was| ==> now[l] == was[l])
  }

  /** Read one chunk of each column. */
  method ReadChunk<T>(file: TableFile<T>, keys: seq<ColumnKey>, columns: seq<ColumnBuffer<T>>, front: int, mem: Segment,
                      ghost targets: seq<Option<int>>, ghost was: seq<seq<T>>)
    returns (ok: bool)
    requires file.Valid() && front >= 0 && mem.front >= 0 && mem.Size() > 0
    requires Distinct(columns) && KeysTarget(keys, targets, file.table.columns)
    requires was == Snapshot(columns) && Fit(file.table, targets, Repeats(columns), mem.back + 1, was)
    modifies keys, columns
    ensures ok ==> KeysTarget(keys, targets, file.table.columns)
    ensures ok <==> forall j :: 0 <= j < |targets| ==> Readable(file.table, targets[j], front, mem.Size())
    ensures ok ==>
      ColumnsRead(file.table, targets, Repeats(columns), front, mem.front, mem.Size(), was, Snapshot(columns))
    ensures SomeRead(file.table, targets, Repeats(columns), front, mem.front, mem.Size(), was, Snapshot(columns))
  {
    ghost var table, repeats, m, n := file.table, Repeats(columns), mem.front, mem.Size();
    ghost var now := was;
    for j := 0 to |columns|
      invariant file.table == table && KeysTarget(keys, targets, table.columns)
      invariant now == Snapshot(columns)
      invariant FirstRead(table, targets, repeats, front, m, n, was, now, j)
    {
      ghost var data;
      ok, data := ReadKeyChunk(file, keys, columns, j, front, mem, targets, now);
      if !ok {
        assert now[j := data] == now;
        FirstReadIsSome(table, targets, repeats, front, m, n, was, now, j);
        return;
      }
      NextRead(table, targets, repeats, front, m, n, was, now, j, data);
      now := now[j := data];
    }
    ok := true;
    FirstReadIsSome(table, targets, repeats, front, m, n, was, now, |columns|);
  }

  lemma NextRead<T>(table: Table<T>, targets: seq<Option<int>>, repeats: seq<int>, f: int, m: int, n: int,
                    was: seq<seq<T>>, now: seq<seq<T>>, j: nat, data: seq<T>)
    requires FirstRead(table, targets, repeats, f, m, n, was, now, j) && 0 <= j < |was|
    requires Readable(table, targets[j], f, n) && ColumnRead(table, targets[j], repeats[j], f, m, n, was[j], data)
    ensures FirstRead(table, targets, repeats, f, m, n, was, now[j := data], j + 1)
  {
  }

  lemma FirstReadIsSome<T>(table: Table<T>, targets: seq<Option<int>>, repeats: seq<int>, f: int, m: int, n: int,
                           was: seq<seq<T>>, now: seq<seq<T>>, j: nat)
    requires FirstRead(table, targets, repeats, f, m, n, was, now, j)
    ensures SomeRead(table, targets, repeats, f, m, n, was, now)
    ensures j == |was| ==> ColumnsRead(table, targets, repeats, f, m, n, was, now)
  {
  }

  /** The rows `f` on are read to the rows `m` on; `f1` and `m1` are `k` rows further, and `n` is `k + w`. */
  lemma ColumnsReadInChunks<T>(
    table: Table<T>, targets: seq<Option<int>>, repeats: seq<int>, f: int, m: int, k: int, f1: int, m1: int, w: int,
    n: int, was: seq<seq<T>>, now: seq<seq<T>>, next: seq<seq<T>>)
    requires 0 <= k && 0 < w && 0 <= f && 0 <= m && f1 == f + k && m1 == m + k && n == k + w
    requires ColumnsRead(table, targets, repeats, f, m, k, was, now)
    requires ColumnsRead(table, targets, repeats, f1, m1, w, now, next)
    ensures ColumnsRead(table, targets, repeats, f, m, n, was, next)
  {
    forall j | 0 <= j < |was|
      ensures ColumnRead(table, targets[j], repeats[j], f, m, n, was[j], next[j])
    {
      ReadInChunks(table, targets[j], repeats[j], f, m, k, w, was[j], now[j], next[j]);
    }
  }

  /** Nothing changed outside of the rows `m` to `m + n - 1` of each column. */
  ghost predicate AllKeptOutside<T>(repeats: seq<int>, m: int, n: int, was: seq<seq<T>>, now: seq<seq<T>>)
  {
    && |repeats| == |was| == |now|
    && forall j :: 0 <= j < |was| ==> KeptOutside(repeats[j], m, n, was[j], now[j])
  }

  lemma ReadKeepsAllOutside<T>(table: Table<T>, targets: seq<Option<int>>, repeats: seq<int>, f: int, m: int,
                               k: int, n: int, was: seq<seq<T>>, now: seq<seq<T>>)
    requires 0 <= k <= n && 0 <= m && ColumnsRead(table, targets, repeats, f, m, k, was, now)
    requires forall j :: 0 <= j < |repeats| ==> repeats[j] >= 1
    ensures AllKeptOutside(repeats, m, n, was, now)
  {
    forall j | 0 <= j < |was| ensures KeptOutside(repeats[j], m, n, was[j], now[j]) {
      ReadKeepsOutside(table, targets[j], repeats[j], f, m, k, n, was[j], now[j]);
    }
  }

  /** Even when a chunk fails, the rows outside of the memory segment are as they were. */
  lemma FailedChunkKeepsOutside<T>(
    table: Table<T>, targets: seq<Option<int>>, repeats: seq<int>, f: int, m: int, k: int, f1: int, m1: int, w: int,
    n: int, was: seq<seq<T>>, now: seq<seq<T>>, next: seq<seq<T>>)
    requires 0 <= k && 0 < w && k + w <= n && 0 <= f && 0 <= m && f1 == f + k && m1 == m + k
    requires ColumnsRead(table, targets, repeats, f, m, k, was, now)
    requires forall j :: 0 <= j < |repeats| ==> repeats[j] >= 1
    requires SomeRead(table, targets, repeats, f1, m1, w, now, next)
    ensures AllKeptOutside(repeats, m, n, was, next)
  {
    forall j | 0 <= j < |was|
      ensures KeptOutside(repeats[j], m, n, was[j], next[j])
    {
      if next[j] == now[j] {
        ReadKeepsOutside(table, targets[j], repeats[j], f, m, k, n, was[j], next[j]);
      } else {
        ReadInChunks(table, targets[j], repeats[j], f, m, k, w, was[j], now[j], next[j]);
        ReadKeepsOutside(table, targets[j], repeats[j], f, m, k + w, n, was[j], next[j]);
      }
    }
  }

  ghost predicate AllReadable<T>(table: Table<T>, targets: seq<Option<int>>, f: int, n: int)
  {
    n > 0 ==> forall j :: 0 <= j < |targets| ==> Readable(table, targets[j], f, n)
  }

  /** A chunk is readable after others exactly if they are all readable; all the chunks are if the last one is. */
  lemma ReadableInChunks<T>(table: Table<T>, targets: seq<Option<int>>, f: int, k: int, f1: int, w: int, n: int,
                            all: int)
    requires 0 <= k && 0 < w && 0 <= f && f1 == f + k && n == k + w <= all && AllReadable(table, targets, f, k)
    ensures AllReadable(table, targets, f1, w) <==> AllReadable(table, targets, f, n)
    ensures AllReadable(table, targets, f, all) ==> AllReadable(table, targets, f, n)
  {
  }

  /**
   The reading of the rows from `f` on of the table to the rows `mems` of the columns succeeds exactly if
   CFITSIO has all of them, and then fills those rows; others are not touched in any case.
   */
  ghost predicate ReadOutcome<T>(table: Table<T>, targets: seq<Option<int>>, repeats: seq<int>, f: int, mems: Segment,
                                 was: seq<seq<T>>, now: seq<seq<T>>, ok: bool)
  {
    && (ok <==> AllReadable(table, targets, f, mems.Size()))
    && (ok ==> ColumnsRead(table, targets, repeats, f, mems.front, Max(0, mems.Size()), was, now))
    && AllKeptOutside(repeats, mems.front, Max(0, mems.Size()), was, now)
  }

  /** One more chunk: `k` rows were read from the row `f` to the row `m`, and there are `n` to read in all. */
  method ReadNextChunk<T>(file: TableFile<T>, keys: seq<ColumnKey>, columns: seq<ColumnBuffer<T>>, front: int,
                          mem: Segment, ghost targets: seq<Option<int>>, ghost f: int, ghost m: int, ghost k: int,
                          ghost n: int,
                          ghost end: int, ghost was: seq<seq<T>>, ghost now: seq<seq<T>>)
    returns (ok: bool, ghost k1: int)
    requires file.Valid() && f >= 0 && m >= 0 && k >= 0 && mem.Size() > 0 && k + mem.Size() <= n
    requires front == f + k && mem.front == m + k && end == m + n && AllReadable(file.table, targets, f, k)
    requires Distinct(columns) && KeysTarget(keys, targets, file.table.columns)
    requires Fit(file.table, targets, Repeats(columns), end, was) && now == Snapshot(columns)
    requires ColumnsRead(file.table, targets, Repeats(columns), f, m, k, was, now)
    modifies keys, columns
    ensures k1 == k + mem.Size() && (ok ==> KeysTarget(keys, targets, file.table.columns))
    ensures if ok then AllReadable(file.table, targets, f, k1) else !AllReadable(file.table, targets, f, n)
    ensures ok ==> ColumnsRead(file.table, targets, Repeats(columns), f, m, k1, was, Snapshot(columns))
    ensures !ok ==> AllKeptOutside(Repeats(columns), m, n, was, Snapshot(columns))
  {
    ghost var table, repeats, w, m1 := file.table, Repeats(columns), mem.Size(), mem.front;
    k1 := k + w;
    StillFit(table, targets, repeats, end, f, m, k, was, now);
    ReadableInChunks(table, targets, f, k, front, w, k1, n);
    ok := ReadChunk(file, keys, columns, front, mem, targets, now);
    ghost var next := Snapshot(columns);
    if ok {
      ColumnsReadInChunks(table, targets, repeats, f, m, k, front, m1, w, k1, was, now, next);
    } else {
      FailedChunkKeepsOutside(table, targets, repeats, f, m, k, front, m1, w, n, was, now, next);
    }
  }

  /** The chunk loop: the rows from `f` on of the table to the rows `mems` of the columns. */
  method ReadChunks<T>(file: TableFile<T>, keys: seq<ColumnKey>, columns: seq<ColumnBuffer<T>>, f: int, mems: Segment,
                       ghost targets: seq<Option<int>>, ghost was: seq<seq<T>>)
    returns (ok: bool)
    requires file.Valid() && f >= 0 && mems.front >= 0
    requires Distinct(columns) && KeysTarget(keys, targets, file.table.columns)
    requires was == Snapshot(columns) && Fit(file.table, targets, Repeats(columns), mems.back + 1, was)
    modifies keys, columns
    ensures ReadOutcome(file.table, targets, Repeats(columns), f, mems, was, Snapshot(columns), ok)
  {
    ghost var table, repeats, m, n, k := file.table, Repeats(columns), mems.front, Max(0, mems.Size()), 0;
    var buffer, last := file.bufferRows, mems.back;
    var segment, mem := FromSize(f, buffer), FromSize(mems.front, buffer);
    while mem.front <= last
      invariant file.table == table
      invariant mem.front <= last ==> mem.back == mem.front + buffer - 1
      invariant mem.front - m == segment.front - f >= 0
      invariant k == if mem.front - m < n then mem.front - m else n
      invariant KeysTarget(keys, targets, table.columns)
      invariant ColumnsRead(table, targets, repeats, f, m, k, was, Snapshot(columns))
      invariant AllReadable(table, targets, f, k) && 0 <= k <= n
      decreases last - mem.front
    {
      if mem.back > last {
        mem := mem.(back := last);
      }
      ghost var k1;
      ok, k1 := ReadNextChunk(file, keys, columns, segment.front, mem, targets, f, m, k, n, last + 1, was,
                              Snapshot(columns));
      if !ok {
        return;
      }
      k := k1;
      segment := Segment(segment.front + buffer, segment.back + buffer);
      mem := Segment(mem.front + buffer, mem.back + buffer);
    }
    ok := true;
    assert k == n;
    ReadKeepsAllOutside(table, targets, repeats, f, m, n, n, was, Snapshot(columns));
  }

  ghost function RowCounts<T>(columns: seq<ColumnBuffer<T>>, data: seq<seq<T>>): (r: seq<int>)
    requires |data| == |columns|
    ensures |r| == |columns| && forall j :: 0 <= j < |r| ==> r[j] == |data[j]| / columns[j].repeat
  {
    seq(|columns|, j requires 0 <= j < |columns| => |data[j]| / columns[j].repeat)
  }

  method CountRows<T>(columns: seq<ColumnBuffer<T>>, ghost was: seq<seq<T>>) returns (counts: seq<int>)
    requires was == Snapshot(columns)
    ensures counts == RowCounts(columns, was)
    ensures forall j :: 0 <= j < |counts| ==> counts[j] >= 0
  {
    counts := [];
    for j := 0 to |columns|
      invariant |counts| == j && forall l :: 0 <= l < j ==> counts[l] == columns[l].RowCount() >= 0
    {
      RowCapacity(|columns[j].data|, columns[j].repeat, 0);
      counts := counts + [columns[j].RowCount()];
    }
  }

  /** Resolve the rows with the number of rows of the columns, if they all have the same. */
  method ResolveForColumns<T>(file: TableFile<T>, rows: FileMemSegments, columns: seq<ColumnBuffer<T>>,
                              ghost was: seq<seq<T>>)
    returns (same: bool)
    requires was == Snapshot(columns)
    modifies rows
    ensures same <==> AllEqual(RowCounts(columns, was))
    ensures same ==>
      (rows.file, rows.memory) ==
        old(Resolved(rows.file, rows.memory, file.table.rows - 1, CommonCount(RowCounts(columns, was)) - 1))
    ensures was == Snapshot(columns)
  {
    var counts := CountRows(columns, was);
    var count := RowCountOf(counts);
    if count.None? {
      return false;
    }
    rows.Resolve(file.table.rows - 1, count.value - 1);
    return true;
  }

  /** The resolved memory segment is inside the columns. */
  ghost predicate InMemory<T>(table: Table<T>, targets: seq<Option<int>>, repeats: seq<int>, was: seq<seq<T>>,
                              resolved: (Segment, Segment))
  {
    resolved.0.front >= 0 && resolved.1.front >= 0 && Fit(table, targets, repeats, resolved.1.back + 1, was)
  }

  /**
   Read several columns chunk by chunk.  `targets` are the columns that the keys stand for and `was` the
   data before.
   */
  method ReadSegmentSeqTo<T>(file: TableFile<T>, rows: FileMemSegments, keys: seq<ColumnKey>,
                             columns: seq<ColumnBuffer<T>>, ghost targets: seq<Option<int>>, ghost was: seq<seq<T>>)
    returns (status: Status)
    requires file.Valid() && Distinct(columns) && KeysTarget(keys, targets, file.table.columns)
    requires |targets| == |columns| && was == Snapshot(columns)
    requires AllEqual(RowCounts(columns, was)) ==>
      InMemory(file.table, targets, Repeats(columns), was,
        Resolved(rows.file, rows.memory, file.table.rows - 1, CommonCount(RowCounts(columns, was)) - 1))
    modifies rows, keys, columns
    ensures status.RowCountsDiffer? <==> !AllEqual(RowCounts(columns, was))
    ensures status.RowCountsDiffer? ==> Snapshot(columns) == was
    ensures !status.RowCountsDiffer? ==>
      (rows.file, rows.memory) ==
        old(Resolved(rows.file, rows.memory, file.table.rows - 1, CommonCount(RowCounts(columns, was)) - 1))
    ensures !status.RowCountsDiffer? ==>
      ReadOutcome(file.table, targets, Repeats(columns), rows.file.front, rows.memory, was, Snapshot(columns),
                  status.Done?)
    ensures status.Done? <==>
      && AllEqual(RowCounts(columns, was))
      && (rows.memory.Size() > 0 ==> forall j :: 0 <= j < |targets| ==>
        && targets[j].Some? && 0 <= targets[j].value < |file.table.columns|
        && rows.file.front + rows.memory.Size() <= file.table.rows)
    ensures status.Done? ==>
      CellsRead(file.table, targets, Repeats(columns), rows.file.front, rows.memory.front, rows.memory.Size(),
                Snapshot(columns))
  {
    var same := ResolveForColumns(file, rows, columns, was);
    if !same {
      return RowCountsDiffer;
    }
    var f, mems := rows.file.front, rows.memory;
    var ok := ReadChunks(file, keys, columns, f, mems, targets, was);
    if ok {
      OutcomeCells(file.table, targets, Repeats(columns), f, mems, was, Snapshot(columns));
    }
    return if ok then Done else CfitsioError;
  }

  /**
   If the file and memory segments have the same size, which they have for all mappings but those listed by
   `MemorySegmentCondition`, the outcome is that of one `ReadSegmentTo` per column: `once` are the columns that
   these calls give.  Without rows to read, the buffered form succeeds even if a key stands for no column.
   */
  lemma ReadIsUnbuffered<T>(table: Table<T>, targets: seq<Option<int>>, repeats: seq<int>, f: Segment, mems: Segment,
                            was: seq<seq<T>>, now: seq<seq<T>>, ok: bool, once: seq<seq<T>>)
    requires f.Size() == mems.Size() >= 0 && ReadOutcome(table, targets, repeats, f.front, mems, was, now, ok)
    requires |targets| == |was|
    ensures f.Size() > 0 ==>
      (ok <==> forall j :: 0 <= j < |targets| ==> Readable(table, targets[j], f.front, f.Size()))
    ensures ok && ColumnsRead(table, targets, repeats, f.front, mems.front, f.Size(), was, once) ==> now == once
    ensures ok ==> ColumnsRead(table, targets, repeats, f.front, mems.front, f.Size(), was, now)
  {
    if ok && ColumnsRead(table, targets, repeats, f.front, mems.front, f.Size(), was, once) {
      forall j | 0 <= j < |was| ensures now[j] == once[j] {
        assert ColumnRead(table, targets[j], repeats[j], f.front, mems.front, f.Size(), was[j], once[j]);
      }
      assert now == once;
    }
  }

  /** The same for mappings built from a part of the file, or from one of the memory at an explicit row. */
  lemma MappedReadIsUnbuffered<T>(
    table: Table<T>, targets: seq<Option<int>>, repeats: seq<int>, segment: Segment, index: int, memoryBack: int,
    resolved: (Segment, Segment), was: seq<seq<T>>, now: seq<seq<T>>, ok: bool, once: seq<seq<T>>)
    requires segment.front >= 0 && (segment.back >= segment.front || segment.back == -1)
    requires index >= 0 && table.rows >= 0 && memoryBack >= -1 && |targets| == |was|
    requires
      || resolved == ResolvedFromFile(segment, index, table.rows - 1, memoryBack)
      || resolved == ResolvedFromMemory(index, segment, table.rows - 1, memoryBack)
    requires resolved.1.Size() >= 0 && ReadOutcome(table, targets, repeats, resolved.0.front, resolved.1, was, now, ok)
    ensures var (f, m) := resolved;
      && f.Size() == m.Size()
      && (f.Size() > 0 ==> (ok <==> forall j :: 0 <= j < |targets| ==> Readable(table, targets[j], f.front, f.Size())))
      && (ok && ColumnsRead(table, targets, repeats, f.front, m.front, f.Size(), was, once) ==> now == once)
  {
    if resolved == ResolvedFromFile(segment, index, table.rows - 1, memoryBack) {
      FileSegmentResolves(segment, index, table.rows - 1, memoryBack);
    } else {
      MemorySegmentCondition(index, segment, table.rows - 1, memoryBack);
    }
    ReadIsUnbuffered(table, targets, repeats, resolved.0, resolved.1, was, now, ok, once);
  }
}
