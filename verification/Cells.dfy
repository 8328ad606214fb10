/**
 What reading and writing rows do to each element of each column.

 The element `e` of the row `r` of a column is at `r * repeat + e` in the data.
 */
module Cells {

  import opened Wrappers
  import opened Tables

  /** An element of a column, if there is one. */
  function Cell<T>(data: seq<T>, repeat: int, row: int, e: int): (r: Option<T>)
  {
    var index := row * repeat + e;
    if 0 <= index < |data| then Some(data[index]) else None
  }

  /** Where an element is with respect to the first element of another row. */
  lemma CellOrder(repeat: int, row: int, e: int, other: int)
    requires repeat >= 1 && 0 <= e < repeat && 0 <= row && 0 <= other
    ensures row < other ==> row * repeat + e < other * repeat
    ensures row >= other ==> row * repeat + e >= other * repeat
  {
    if row < other {
      GrowthBounds(row + 1, other, repeat);
      assert (row + 1) * repeat == row * repeat + repeat;
    } else {
      GrowthBounds(other, row, repeat);
    }
  }

  /** The elements of some rows, one by one. */
  lemma RowsElement<T>(data: seq<T>, repeat: int, row: int, n: int, r: int, e: int)
    requires repeat >= 1 && 0 <= row && 0 <= n && (row + n) * repeat <= |data| && 0 <= r < n && 0 <= e < repeat
    ensures 0 <= r * repeat + e < n * repeat && 0 <= (row + r) * repeat + e < |data|
    ensures Rows(data, repeat, row, n)[r * repeat + e] == data[(row + r) * repeat + e]
  {
    CellOrder(repeat, r, e, n);
    CellOrder(repeat, r, e, 0);
    CellOrder(repeat, row + r, e, row + n);
    CellOrder(repeat, row + r, e, 0);
    RowBounds(repeat, row, n);
    assert (row + r) * repeat == row * repeat + r * repeat;
  }

  /** The element of a table column after some rows were written: written, kept or filled. */
  lemma WrittenElement<T>(was: Column<T>, fill: T, count: int, rows: int, writer: Option<Column<T>>, f: int, m: int,
                          n: int, now: seq<T>, row: int, e: int)
    requires ColumnWritten(was, fill, rows, writer, f, m, n, now) && 0 <= f && 0 <= n && f + n <= rows
    requires was.repeat >= 1 && 0 <= count <= rows && |was.data| == count * was.repeat
    requires 0 <= row < rows && 0 <= e < was.repeat
    ensures 0 <= row * was.repeat + e < |now|
    ensures writer.Some? && f <= row < f + n ==>
      && 0 <= (m + (row - f)) * was.repeat + e < |writer.value.data|
      && now[row * was.repeat + e] == writer.value.data[(m + (row - f)) * was.repeat + e]
    ensures !(writer.Some? && f <= row < f + n) && row < count ==>
      row * was.repeat + e < |was.data| && now[row * was.repeat + e] == was.data[row * was.repeat + e]
    ensures !(writer.Some? && f <= row < f + n) && row >= count ==> now[row * was.repeat + e] == fill
  {
    var repeat, i := was.repeat, row * was.repeat + e;
    CellOrder(repeat, row, e, 0);
    CellOrder(repeat, row, e, rows);
    CellOrder(repeat, row, e, count);
    GrowthBounds(count, rows, repeat);
    if writer.Some? {
      CellOrder(repeat, row, e, f);
      CellOrder(repeat, row, e, f + n);
      RowBounds(repeat, f, n);
      if f <= row < f + n {
        RowsElement(writer.value.data, repeat, m, n, row - f, e);
        assert row * repeat == f * repeat + (row - f) * repeat;
      }
    }
  }

  // Which column is written where

  /** The last of the columns of given name. */
  ghost predicate IsLastNamed<T>(columns: seq<Column<T>>, name: string, l: int)
  {
    && 0 <= l < |columns| && columns[l].name == name
    && forall k :: l < k < |columns| ==> columns[k].name != name
  }

  ghost predicate NoneNamed<T>(columns: seq<Column<T>>, name: string)
  {
    forall k :: 0 <= k < |columns| ==> columns[k].name != name
  }

  ghost predicate AllHaveColumn<T>(t: Table<T>, columns: seq<Column<T>>)
  {
    forall l :: 0 <= l < |columns| ==> Find(t.columns, columns[l].name).Some?
  }

  /** A column which is found under the name of a table column is for that one. */
  lemma FoundByName<T>(t: Table<T>, columns: seq<Column<T>>, i: int, l: int)
    requires AllHaveColumn(t, columns) && 0 <= i < |t.columns| && 0 <= l < |columns|
    ensures Find(t.columns, columns[l].name) == Some(i) <==> columns[l].name == t.columns[i].name
  {
    var k := Find(t.columns, columns[l].name).value;
    assert IsOnly(t.columns, columns[l].name, k);
  }

  /** The writer of a table column is the last column of the same name. */
  lemma {:induction false} WriterByName<T>(t: Table<T>, columns: seq<Column<T>>, j: nat, i: int)
    requires AllHaveColumn(t, columns) && 0 <= i < |t.columns| && j <= |columns|
    ensures var w := LastWriter(t, columns, j, i);
      && (w >= 0 ==> columns[w].name == t.columns[i].name)
      && forall k :: w < k < j ==> columns[k].name != t.columns[i].name
    decreases j
  {
    if j > 0 {
      WriterByName(t, columns, j - 1, i);
      FoundByName(t, columns, i, j - 1);
    }
  }

  /**
   The element `e` of the row `row` of the table column `i`, after the rows from `m` on of the columns were written at
   the rows `f` to `f + n - 1`: that of the last column of the same name, or else the old one, or else filled.
   */
  ghost predicate CellWritten<T>(t: Table<T>, columns: seq<Column<T>>, f: int, m: int, n: int, r: Table<T>, i: int,
                                 row: int, e: int)
    requires 0 <= i < |t.columns| == |r.columns|
  {
    var repeat := t.columns[i].repeat;
    var now := Cell(r.columns[i].data, repeat, row, e);
    && now.Some?
    && (f <= row < f + n ==> forall l :: IsLastNamed(columns, t.columns[i].name, l) ==>
      now == Cell(columns[l].data, repeat, m + (row - f), e))
    && (!(f <= row < f + n) || NoneNamed(columns, t.columns[i].name) ==>
      now == if row < t.rows then Cell(t.columns[i].data, repeat, row, e) else Some(t.fill))
  }

  /** `CellWritten` for all the elements. */
  ghost predicate CellsWritten<T>(t: Table<T>, columns: seq<Column<T>>, f: int, m: int, n: int, r: Table<T>)
  {
    && SameColumns(t, r) && r.rows == (if t.rows < f + n then f + n else t.rows)
    && forall i, row, e :: 0 <= i < |t.columns| && 0 <= row < r.rows && 0 <= e < t.columns[i].repeat ==>
      CellWritten(t, columns, f, m, n, r, i, row, e)
  }

  lemma WriterIsLast<T>(t: Table<T>, columns: seq<Column<T>>, i: int)
    requires AllHaveColumn(t, columns) && 0 <= i < |t.columns|
    ensures var writer := WriterOf(t, columns, |columns|, i);
      && (writer.None? <==> NoneNamed(columns, t.columns[i].name))
      && (writer.Some? ==> forall l :: IsLastNamed(columns, t.columns[i].name, l) ==> columns[l] == writer.value)
  {
    WriterByName(t, columns, |columns|, i);
  }

  /** `WrittenElement`, by cells. */
  lemma ColumnCell<T>(was: Column<T>, fill: T, count: int, rows: int, writer: Option<Column<T>>, f: int, m: int, n: int,
                      now: seq<T>, row: int, e: int)
    requires ColumnWritten(was, fill, rows, writer, f, m, n, now) && 0 <= f && 0 <= n && f + n <= rows
    requires was.repeat >= 1 && 0 <= count <= rows && |was.data| == count * was.repeat
    requires 0 <= row < rows && 0 <= e < was.repeat
    ensures Cell(now, was.repeat, row, e).Some?
    ensures Cell(now, was.repeat, row, e) ==
      if writer.Some? && f <= row < f + n then Cell(writer.value.data, was.repeat, m + (row - f), e)
      else if row < count then Cell(was.data, was.repeat, row, e)
      else Some(fill)
  {
    WrittenElement(was, fill, count, rows, writer, f, m, n, now, row, e);
    CellOrder(was.repeat, row, e, 0);
  }

  lemma WrittenCell<T>(t: Table<T>, columns: seq<Column<T>>, f: int, m: int, n: int, r: Table<T>, i: int, row: int,
                       e: int)
    requires t.Valid() && 0 <= f && 0 <= n && AreWritten(t, columns, f, m, n, r) && AllHaveColumn(t, columns)
    requires 0 <= i < |t.columns| && 0 <= row < r.rows && 0 <= e < t.columns[i].repeat
    ensures CellWritten(t, columns, f, m, n, r, i, row, e)
  {
    var writer := WriterOf(t, columns, |columns|, i);
    WriterIsLast(t, columns, i);
    assert ColumnWritten(t.columns[i], t.fill, r.rows, writer, f, m, n, r.columns[i].data);
    ColumnCell(t.columns[i], t.fill, t.rows, r.rows, writer, f, m, n, r.columns[i].data, row, e);
  }

  lemma AllCellsWritten<T>(t: Table<T>, columns: seq<Column<T>>, f: int, m: int, n: int, r: Table<T>)
    requires t.Valid() && 0 <= f && 0 <= n && AreWritten(t, columns, f, m, n, r) && AllHaveColumn(t, columns)
    ensures CellsWritten(t, columns, f, m, n, r)
  {
    forall i, row, e | 0 <= i < |t.columns| && 0 <= row < r.rows && 0 <= e < t.columns[i].repeat
      ensures CellWritten(t, columns, f, m, n, r, i, row, e)
    {
      WrittenCell(t, columns, f, m, n, r, i, row, e);
    }
  }

  /** What it means at the end of a table: row `k` of the last column of the name is after the old rows. */
  lemma AppendedElement<T>(t: Table<T>, columns: seq<Column<T>>, m: int, n: int, r: Table<T>, i: int, l: int, k: int,
                           e: int)
    requires t.Valid() && CellsWritten(t, columns, t.rows, m, n, r) && 0 <= i < |t.columns|
    requires IsLastNamed(columns, t.columns[i].name, l) && 0 <= k < n && 0 <= e < t.columns[i].repeat
    ensures var repeat := t.columns[i].repeat;
      var to, from := (t.rows + k) * repeat + e, (m + k) * repeat + e;
      && 0 <= to < |r.columns[i].data| && 0 <= from < |columns[l].data|
      && r.columns[i].data[to] == columns[l].data[from]
  {
    assert CellWritten(t, columns, t.rows, m, n, r, i, t.rows + k, e);
  }

  /** Old elements are where they were. */
  lemma KeptElement<T>(t: Table<T>, columns: seq<Column<T>>, m: int, n: int, r: Table<T>, i: int, x: int)
    requires t.Valid() && n >= 0 && CellsWritten(t, columns, t.rows, m, n, r)
    requires 0 <= i < |t.columns| && 0 <= x < |t.columns[i].data|
    ensures x < |r.columns[i].data| && r.columns[i].data[x] == t.columns[i].data[x]
  {
    var repeat := t.columns[i].repeat;
    var row, e := x / repeat, x % repeat;
    assert x == row * repeat + e;
    if row >= t.rows {
      CellOrder(repeat, row, e, t.rows);
    }
    assert CellWritten(t, columns, t.rows, m, n, r, i, row, e);
  }
}
