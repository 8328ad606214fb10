/**
 Binary tables as values: a number of rows, and columns whose cells are stored one after the other,
 `repeat` elements per row.  Writing past the last row makes the whole table grow, as in CFITSIO.
 */
module Tables {

  import opened Wrappers

  /** A column of a table or of the memory. */
  datatype Column<T> = Column(name: string, repeat: int, data: seq<T>) {

    function RowCount(): (r: int)
      requires repeat >= 1
    {
      |data| / repeat
    }
  }

  datatype Table<T> = Table(rows: int, columns: seq<Column<T>>, fill: T) {

    ghost predicate Valid() {
      && rows >= 0
      && forall i :: 0 <= i < |columns| ==> columns[i].repeat >= 1 && |columns[i].data| == rows * columns[i].repeat
    }
  }

  // Sequences of rows

  /** `s`, padded to at least `n` elements. */
  function Extended<T>(s: seq<T>, n: int, fill: T): (r: seq<T>)
    ensures |r| == if |s| >= n then |s| else n
  {
    if |s| >= n then s else s + seq(n - |s|, _ => fill)
  }

  /** The elements of `n` rows. */
  function Rows<T>(data: seq<T>, repeat: int, row: int, n: int): (r: seq<T>)
    requires repeat >= 1 && 0 <= row && 0 <= n && (row + n) * repeat <= |data|
    ensures |r| == n * repeat
  {
    RowBounds(repeat, row, n);
    data[row * repeat..(row + n) * repeat]
  }

  lemma RowBounds(repeat: int, row: int, n: int)
    requires repeat >= 1 && 0 <= row && 0 <= n
    ensures 0 <= row * repeat <= (row + n) * repeat
    ensures (row + n) * repeat - row * repeat == n * repeat
  {
    assert (row + n) * repeat == row * repeat + n * repeat;
  }

  lemma RowsConcatenate<T>(data: seq<T>, repeat: int, row: int, k: int, w: int)
    requires repeat >= 1 && 0 <= row && 0 <= k && 0 <= w && (row + k + w) * repeat <= |data|
    ensures (row + k) * repeat <= |data|
    ensures Rows(data, repeat, row, k) + Rows(data, repeat, row + k, w) == Rows(data, repeat, row, k + w)
  {
    RowBounds(repeat, row, k);
    RowBounds(repeat, row + k, w);
    assert row + (k + w) == row + k + w;
  }

  lemma OverwrittenTwice<T>(s: seq<T>, at: int, a: seq<T>, b: seq<T>)
    requires 0 <= at && at + |a| + |b| <= |s|
    ensures Overwritten(Overwritten(s, at, a), at + |a|, b) == Overwritten(s, at, a + b)
  {
  }

  /** Growing commutes with writing. */
  lemma ExtendedOverwritten<T>(s: seq<T>, n: int, at: int, a: seq<T>, m: int, fill: T)
    requires 0 <= at && at + |a| <= n <= m
    ensures Extended(Overwritten(Extended(s, n, fill), at, a), m, fill) == Overwritten(Extended(s, m, fill), at, a)
  {
  }

  lemma ExtendedTwice<T>(s: seq<T>, n: int, m: int, fill: T)
    requires n <= m
    ensures Extended(Extended(s, n, fill), m, fill) == Extended(s, m, fill)
  {
  }

  // Column lookup

  /** The column `i` is the only one of given name. */
  predicate IsOnly<T>(columns: seq<Column<T>>, name: string, i: int)
  {
    && 0 <= i < |columns| && columns[i].name == name
    && forall j :: 0 <= j < |columns| && j != i ==> columns[j].name != name
  }

  /** The index of the column of given name; there is none if several columns have that name. */
  function Find<T>(columns: seq<Column<T>>, name: string): (r: Option<nat>)
    ensures r.Some? ==> IsOnly(columns, name, r.value)
    ensures r.None? ==> forall i :: 0 <= i < |columns| ==> !IsOnly(columns, name, i)
  {
    if exists i :: 0 <= i < |columns| && IsOnly(columns, name, i) then
      var i :| 0 <= i < |columns| && IsOnly(columns, name, i);
      Some(i)
    else None
  }

  // Writing

  function Max(a: int, b: int): (r: int)
  {
    if a < b then b else a
  }

  ghost predicate SameColumns<T>(t: Table<T>, u: Table<T>)
  {
    && |t.columns| == |u.columns| && t.fill == u.fill
    && forall i :: 0 <= i < |t.columns| ==>
      t.columns[i].name == u.columns[i].name && t.columns[i].repeat == u.columns[i].repeat
  }

  lemma FindSame<T>(t: Table<T>, u: Table<T>, name: string)
    requires SameColumns(t, u)
    ensures Find(t.columns, name) == Find(u.columns, name)
  {
    forall i | 0 <= i < |t.columns| ensures IsOnly(t.columns, name, i) <==> IsOnly(u.columns, name, i) {
    }
  }

  /** The column has a place in the table, and holds the rows `m` to `m + n - 1`. */
  ghost predicate Writable<T>(t: Table<T>, column: Column<T>, m: int, n: int)
  {
    && Find(t.columns, column.name).Some?
    && column.repeat == t.columns[Find(t.columns, column.name).value].repeat
    && column.repeat >= 1 && 0 <= m && 0 <= n
    && (m + n) * column.repeat <= |column.data|
  }

  /** A column of a table which grows to `rows` rows, with `values` written at the row `f` if it is the target. */
  function Grown<T>(column: Column<T>, rows: int, fill: T, target: bool, f: int, values: seq<T>): (r: Column<T>)
    requires target ==> 0 <= f * column.repeat && f * column.repeat + |values| <= rows * column.repeat
    ensures r.name == column.name && r.repeat == column.repeat
    ensures |column.data| <= rows * column.repeat ==> |r.data| == rows * column.repeat
  {
    var data := Extended(column.data, rows * column.repeat, fill);
    column.(data := if target then Overwritten(data, f * column.repeat, values) else data)
  }

  /** Write `n` rows of a column, from its row `m` on, at the row `f` of the table. */
  function Put<T>(t: Table<T>, column: Column<T>, f: int, m: int, n: int): (r: Table<T>)
    requires t.Valid() && Writable(t, column, m, n) && f >= 0
    ensures r.Valid() && SameColumns(t, r) && r.rows == Max(t.rows, f + n)
  {
    var i := Find(t.columns, column.name).value;
    var rows := Max(t.rows, f + n);
    RowBounds(column.repeat, f, n);
    GrowthBounds(f + n, rows, column.repeat);
    var values := Rows(column.data, column.repeat, m, n);
    var columns := seq(|t.columns|, j requires 0 <= j < |t.columns| =>
      Grown(t.columns[j], rows, t.fill, j == i, f, values));
    var r := Table(rows, columns, t.fill);
    assert r.Valid() by {
      forall j | 0 <= j < |columns| ensures |columns[j].data| == rows * columns[j].repeat {
        GrowthBounds(t.rows, rows, t.columns[j].repeat);
      }
    }
    r
  }

  lemma GrowthBounds(a: int, b: int, repeat: int)
    requires 0 <= a <= b && repeat >= 1
    ensures 0 <= a * repeat <= b * repeat
  {
    assert b * repeat == a * repeat + (b - a) * repeat;
  }

  // Writing several columns, and several chunks

  /** The first `j` columns are writable. */
  ghost predicate AllWritable<T>(t: Table<T>, columns: seq<Column<T>>, j: int, m: int, n: int)
  {
    j <= |columns| && forall l :: 0 <= l < j ==> Writable(t, columns[l], m, n)
  }

  lemma WritableSame<T>(t: Table<T>, u: Table<T>, column: Column<T>, m: int, n: int)
    requires SameColumns(t, u) && Writable(t, column, m, n)
    ensures Writable(u, column, m, n)
  {
    FindSame(t, u, column.name);
  }

  /** The first `j` columns written one after the other, each in one go. */
  function PutEach<T>(t: Table<T>, columns: seq<Column<T>>, j: nat, f: int, m: int, n: int): (r: Table<T>)
    requires t.Valid() && AllWritable(t, columns, j, m, n) && f >= 0
    ensures r.Valid() && SameColumns(t, r)
    ensures r.rows == if j == 0 then t.rows else Max(t.rows, f + n)
  {
    if j == 0 then t else
      var u := PutEach(t, columns, j - 1, f, m, n);
      WritableSame(t, u, columns[j - 1], m, n);
      Put(u, columns[j - 1], f, m, n)
  }

  /** Which of the first `j` columns has the last word on the column `i` of the table, or -1. */
  function LastWriter<T>(t: Table<T>, columns: seq<Column<T>>, j: nat, i: int): (r: int)
    requires j <= |columns|
    ensures -1 <= r < j
  {
    if j == 0 then -1
    else if Find(t.columns, columns[j - 1].name) == Some(i) then j - 1
    else LastWriter(t, columns, j - 1, i)
  }

  /**
   `now` are the data of the column `was` of a table which grew to `rows` rows, with the rows `m` to
   `m + n - 1` of `writer`, if any, written at the row `f`.
   */
  ghost predicate ColumnWritten<T>(
    was: Column<T>, fill: T, rows: int, writer: Option<Column<T>>, f: int, m: int, n: int, now: seq<T>)
  {
    var grown := Extended(was.data, rows * was.repeat, fill);
    match writer
    case None => now == grown
    case Some(c) =>
      && c.repeat == was.repeat >= 1 && 0 <= m && 0 <= n && (m + n) * c.repeat <= |c.data|
      && 0 <= f * was.repeat && f * was.repeat + n * was.repeat <= |grown|
      && now == Overwritten(grown, f * was.repeat, Rows(c.data, c.repeat, m, n))
  }

  /** One column written in a table. */
  lemma PutColumn<T>(t: Table<T>, c: Column<T>, f: int, m: int, n: int, i: int)
    requires t.Valid() && Writable(t, c, m, n) && f >= 0 && 0 <= i < |t.columns|
    ensures ColumnWritten(t.columns[i], t.fill, Max(t.rows, f + n),
      if Find(t.columns, c.name) == Some(i) then Some(c) else None, f, m, n, Put(t, c, f, m, n).columns[i].data)
  {
    var rows, e := Max(t.rows, f + n), t.columns[i].repeat;
    RowBounds(e, f, n);
    GrowthBounds(f + n, rows, e);
    GrowthBounds(t.rows, rows, e);
    assert Put(t, c, f, m, n).columns[i] ==
      Grown(t.columns[i], rows, t.fill, Find(t.columns, c.name).value == i, f, Rows(c.data, c.repeat, m, n));
  }

  /** One more column written in a table which already has its new size. */
  lemma WrittenThen<T>(
    was: Column<T>, fill: T, rows: int, a: Option<Column<T>>, b: Option<Column<T>>, f: int, m: int, n: int,
    now: Column<T>, next: seq<T>)
    requires ColumnWritten(was, fill, rows, a, f, m, n, now.data) && ColumnWritten(now, fill, rows, b, f, m, n, next)
    requires now.repeat == was.repeat && |now.data| == rows * now.repeat
    ensures ColumnWritten(was, fill, rows, if b.Some? then b else a, f, m, n, next)
  {
    assert Extended(now.data, rows * now.repeat, fill) == now.data;
    if a.Some? && b.Some? {
      OverwrittenAgain(Extended(was.data, rows * was.repeat, fill), f * was.repeat,
        Rows(a.value.data, a.value.repeat, m, n), Rows(b.value.data, b.value.repeat, m, n));
    }
  }

  ghost function WriterOf<T>(t: Table<T>, columns: seq<Column<T>>, j: nat, i: int): (r: Option<Column<T>>)
    requires j <= |columns|
  {
    var w := LastWriter(t, columns, j, i);
    if w == -1 then None else Some(columns[w])
  }

  /** One more column, written in the table `u` that was made from `t`, where `a` has the last word so far. */
  lemma PutAfter<T>(t: Table<T>, u: Table<T>, c: Column<T>, a: Option<Column<T>>, f: int, m: int, n: int, i: int)
    requires t.Valid() && u.Valid() && SameColumns(t, u) && Writable(u, c, m, n) && f >= 0 && 0 <= i < |t.columns|
    requires u.rows == Max(t.rows, f + n)
    requires ColumnWritten(t.columns[i], t.fill, u.rows, a, f, m, n, u.columns[i].data)
    ensures ColumnWritten(t.columns[i], t.fill, u.rows, if Find(t.columns, c.name) == Some(i) then Some(c) else a,
      f, m, n, Put(u, c, f, m, n).columns[i].data)
  {
    FindSame(t, u, c.name);
    PutColumn(u, c, f, m, n, i);
    WrittenThen(t.columns[i], t.fill, u.rows, a, if Find(t.columns, c.name) == Some(i) then Some(c) else None, f, m, n,
      u.columns[i], Put(u, c, f, m, n).columns[i].data);
  }

  /** What writing columns does to the column `i` of the table. */
  lemma {:induction false} PutEachColumn<T>(
    t: Table<T>, columns: seq<Column<T>>, j: nat, f: int, m: int, n: int, i: int)
    requires t.Valid() && AllWritable(t, columns, j, m, n) && f >= 0 && 1 <= j && 0 <= i < |t.columns|
    ensures ColumnWritten(t.columns[i], t.fill, Max(t.rows, f + n), WriterOf(t, columns, j, i), f, m, n,
      PutEach(t, columns, j, f, m, n).columns[i].data)
    decreases j
  {
    var c := columns[j - 1];
    if j == 1 {
      PutColumn(t, c, f, m, n, i);
    } else {
      var u := PutEach(t, columns, j - 1, f, m, n);
      WritableSame(t, u, c, m, n);
      PutEachColumn(t, columns, j - 1, f, m, n, i);
      PutAfter(t, u, c, WriterOf(t, columns, j - 1, i), f, m, n, i);
    }
  }

  lemma OverwrittenAgain<T>(s: seq<T>, at: int, a: seq<T>, b: seq<T>)
    requires 0 <= at && at + |a| <= |s| && |a| == |b|
    ensures Overwritten(Overwritten(s, at, a), at, b) == Overwritten(s, at, b)
  {
  }

  // Chunks

  lemma {:induction false} WriterSame<T>(t: Table<T>, u: Table<T>, columns: seq<Column<T>>, j: nat, i: int)
    requires SameColumns(t, u) && j <= |columns|
    ensures LastWriter(t, columns, j, i) == LastWriter(u, columns, j, i)
    decreases j
  {
    if j > 0 {
      WriterSame(t, u, columns, j - 1, i);
      FindSame(t, u, columns[j - 1].name);
    }
  }

  /** Two consecutive chunks are one: `f1` and `m1` are `k` rows further, and `n` is `k + w`. */
  lemma WrittenChunks<T>(
    was: Column<T>, fill: T, rows: int, rows': int, c: Option<Column<T>>, f: int, m: int, k: int, f1: int, m1: int,
    w: int, n: int, now: Column<T>, next: seq<T>)
    requires ColumnWritten(was, fill, rows, c, f, m, k, now.data)
    requires ColumnWritten(now, fill, rows', c, f1, m1, w, next)
    requires now.repeat == was.repeat >= 1 && 0 <= f && 0 <= k && 0 <= w && 0 <= rows <= rows'
    requires f1 == f + k && m1 == m + k && n == k + w
    requires f1 <= rows && f1 + w <= rows' && |was.data| <= rows * was.repeat
    ensures ColumnWritten(was, fill, rows', c, f, m, n, next)
  {
    var e := was.repeat;
    GrowthBounds(rows, rows', e);
    match c
    case None =>
      ExtendedTwice(was.data, rows * e, rows' * e, fill);
    case Some(c) =>
      RowBounds(e, f, k);
      RowBounds(e, f1, w);
      GrowthBounds(f1, rows, e);
      GrowthBounds(f1 + w, rows', e);
      assert m1 + w == m + n && f1 + w == f + n;
      var a, b := Rows(c.data, e, m, k), Rows(c.data, e, m1, w);
      ExtendedOverwritten(was.data, rows * e, f * e, a, rows' * e, fill);
      OverwrittenTwice(Extended(was.data, rows' * e, fill), f * e, a, b);
      RowsConcatenate(c.data, e, m, k, w);
  }

  /**
   `r` is the table `t` after the rows `m` to `m + n - 1` of each column were written at the row `f`:
   one clause per column of the table.
   */
  ghost predicate AreWritten<T>(t: Table<T>, columns: seq<Column<T>>, f: int, m: int, n: int, r: Table<T>)
  {
    && SameColumns(t, r) && r.Valid() && r.rows == Max(t.rows, f + n)
    && forall i :: 0 <= i < |t.columns| ==>
      ColumnWritten(t.columns[i], t.fill, r.rows, WriterOf(t, columns, |columns|, i), f, m, n,
                            r.columns[i].data)
  }

  lemma PutEachWrites<T>(t: Table<T>, columns: seq<Column<T>>, f: int, m: int, n: int, r: Table<T>)
    requires t.Valid() && AllWritable(t, columns, |columns|, m, n) && f >= 0 && |columns| > 0
    requires r == PutEach(t, columns, |columns|, f, m, n)
    ensures AreWritten(t, columns, f, m, n, r)
  {
    forall i | 0 <= i < |t.columns|
      ensures ColumnWritten(t.columns[i], t.fill, r.rows, WriterOf(t, columns, |columns|, i), f, m, n,
                            r.columns[i].data)
    {
      PutEachColumn(t, columns, |columns|, f, m, n, i);
    }
  }

  lemma WrittenUnique<T>(t: Table<T>, columns: seq<Column<T>>, f: int, m: int, n: int, r: Table<T>, s: Table<T>)
    requires AreWritten(t, columns, f, m, n, r) && AreWritten(t, columns, f, m, n, s)
    ensures r == s
  {
    forall i | 0 <= i < |t.columns| ensures r.columns[i] == s.columns[i] {
      assert ColumnWritten(t.columns[i], t.fill, r.rows, WriterOf(t, columns, |columns|, i), f, m, n,
                            r.columns[i].data);
      assert ColumnWritten(t.columns[i], t.fill, s.rows, WriterOf(t, columns, |columns|, i), f, m, n,
                           s.columns[i].data);
    }
    assert r.columns == s.columns;
  }

  /** Two consecutive chunks of rows are one: `f1` and `m1` are `k` rows further, and `n` is `k + w`. */
  lemma WrittenInChunks<T>(t: Table<T>, columns: seq<Column<T>>, f: int, m: int, k: int, f1: int, m1: int, w: int,
                           n: int, u: Table<T>, v: Table<T>)
    requires t.Valid() && f >= 0 && k >= 0 && w >= 0 && f1 == f + k && m1 == m + k && n == k + w
    requires AreWritten(t, columns, f, m, k, u) && AreWritten(u, columns, f1, m1, w, v)
    ensures AreWritten(t, columns, f, m, n, v)
  {
    forall i | 0 <= i < |t.columns|
      ensures ColumnWritten(t.columns[i], t.fill, v.rows, WriterOf(t, columns, |columns|, i), f, m, n,
        v.columns[i].data)
    {
      WriterSame(t, u, columns, |columns|, i);
      GrowthBounds(t.rows, u.rows, t.columns[i].repeat);
      assert ColumnWritten(u.columns[i], u.fill, v.rows, WriterOf(u, columns, |columns|, i), f1, m1, w,
        v.columns[i].data);
      WrittenChunks(t.columns[i], t.fill, u.rows, v.rows, WriterOf(t, columns, |columns|, i), f, m, k, f1, m1, w, n,
        u.columns[i], v.columns[i].data);
    }
  }

  /** The new data of a column of a table to which rows are appended. */
  ghost predicate ColumnAppended<T>(was: Column<T>, fill: T, writer: Option<Column<T>>, m: int, n: int, now: seq<T>)
  {
    match writer
    case None => n * was.repeat >= 0 && now == was.data + seq(n * was.repeat, _ => fill)
    case Some(c) =>
      && c.repeat == was.repeat >= 1 && 0 <= m && 0 <= n && (m + n) * c.repeat <= |c.data|
      && now == was.data + Rows(c.data, c.repeat, m, n)
  }

  lemma WrittenColumnAtEnd<T>(
    was: Column<T>, fill: T, rows: int, writer: Option<Column<T>>, m: int, n: int, now: seq<T>)
    requires was.repeat >= 1 && rows >= 0 && n >= 0 && |was.data| == rows * was.repeat
    requires ColumnWritten(was, fill, rows + n, writer, rows, m, n, now)
    ensures ColumnAppended(was, fill, writer, m, n, now)
  {
    RowBounds(was.repeat, rows, n);
    GrowthBounds(0, n, was.repeat);
    var size := n * was.repeat;
    var grown := Extended(was.data, (rows + n) * was.repeat, fill);
    assert grown == was.data + seq(size, _ => fill);
  }

  /**
   Writing at the end of a table keeps all the earlier rows and adds the rows of the written columns;
   cells of the columns which are not written are filled.
   */
  lemma WrittenAtEnd<T>(t: Table<T>, columns: seq<Column<T>>, m: int, n: int, r: Table<T>)
    requires t.Valid() && n >= 0 && AreWritten(t, columns, t.rows, m, n, r)
    ensures r.rows == t.rows + n
    ensures forall i :: 0 <= i < |t.columns| ==>
      ColumnAppended(t.columns[i], t.fill, WriterOf(t, columns, |columns|, i), m, n, r.columns[i].data)
  {
    forall i | 0 <= i < |t.columns|
      ensures ColumnAppended(t.columns[i], t.fill, WriterOf(t, columns, |columns|, i), m, n, r.columns[i].data)
    {
      assert ColumnWritten(t.columns[i], t.fill, r.rows, WriterOf(t, columns, |columns|, i), t.rows, m, n,
        r.columns[i].data);
      WrittenColumnAtEnd(t.columns[i], t.fill, t.rows, WriterOf(t, columns, |columns|, i), m, n, r.columns[i].data);
    }
  }
}
