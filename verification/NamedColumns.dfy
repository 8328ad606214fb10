/**
 Reading and removing columns by their names.
 */
module NamedColumns {

  import opened Wrappers
  import opened Tables
  import opened Cells
  import opened ColumnKeys
  import opened ColumnRemoval
  import opened FileMem
  import opened RowCounting
  import opened TableReads

  /** One key for each name. */
  method MakeKeys(names: seq<string>) returns (keys: seq<ColumnKey>)
    ensures |keys| == |names| && DistinctKeys(keys) && fresh(keys)
    ensures forall j :: 0 <= j < |keys| ==> keys[j].index == None && keys[j].name == Some(names[j])
  {
    keys := [];
    for j := 0 to |names|
      invariant |keys| == j && DistinctKeys(keys) && fresh(keys)
      invariant forall l :: 0 <= l < j ==> keys[l].index == None && keys[l].name == Some(names[l])
    {
      var key := new ColumnKey.FromName(names[j]);
      keys := keys + [key];
    }
  }

  /** There is exactly one column of that name. */
  ghost predicate IsName<T>(columns: seq<Column<T>>, name: string)
  {
    exists i :: IsOnly(columns, name, i)
  }

  ghost predicate AreNames<T>(columns: seq<Column<T>>, names: seq<string>)
  {
    forall j :: 0 <= j < |names| ==> IsName(columns, names[j])
  }

  ghost predicate DistinctNames(names: seq<string>)
  {
    forall i, j :: 0 <= i < j < |names| ==> names[i] != names[j]
  }

  /** The columns which do not have any of the names, in their order. */
  function NotNamed<T>(columns: seq<Column<T>>, names: seq<string>): (r: seq<Column<T>>)
  {
    if columns == [] then []
    else (if columns[0].name in names then [] else [columns[0]]) + NotNamed(columns[1..], names)
  }

  lemma {:induction false} UnlistedIsNotNamed<T>(columns: seq<Column<T>>, listed: set<int>, names: seq<string>, i: nat)
    requires i <= |columns| && forall k :: 0 <= k < |columns| ==> (k in listed <==> columns[k].name in names)
    ensures Unlisted(columns, listed, i) == NotNamed(columns[i..], names)
    decreases |columns| - i
  {
    if i < |columns| {
      UnlistedIsNotNamed(columns, listed, names, i + 1);
      assert columns[i..][0] == columns[i] && columns[i..][1..] == columns[i + 1..];
    }
  }

  /** The columns that the names stand for. */
  ghost function TargetsOf<T>(columns: seq<Column<T>>, names: seq<string>): (r: seq<Option<int>>)
    ensures |r| == |names|
  {
    seq(|names|, j requires 0 <= j < |names| => KeyTarget(None, Some(names[j]), columns))
  }

  lemma TargetOfName<T>(columns: seq<Column<T>>, names: seq<string>, j: int, i: int)
    requires 0 <= j < |names|
    ensures TargetsOf(columns, names)[j] == Some(i) <==> IsOnly(columns, names[j], i)
    ensures TargetsOf(columns, names)[j].Some? <==> IsName(columns, names[j])
    ensures TargetsOf(columns, names)[j].Some? ==> 0 <= TargetsOf(columns, names)[j].value < |columns|
  {
    NameTarget(names[j], columns, i);
    var t := TargetsOf(columns, names)[j];
    if t.Some? {
      NameTarget(names[j], columns, t.value);
    }
    if IsName(columns, names[j]) {
      var k :| IsOnly(columns, names[j], k);
      NameTarget(names[j], columns, k);
    }
  }

  // Remove

  /** Names list the columns of these names, twice if a name is. */
  lemma ListedByName<T>(columns: seq<Column<T>>, names: seq<string>, values: seq<int>)
    requires AreNames(columns, names) && |values| == |names|
    requires forall j :: 0 <= j < |names| ==> Some(values[j]) == TargetsOf(columns, names)[j]
    ensures forall k :: 0 <= k < |columns| ==> (k in Listed(values) <==> columns[k].name in names)
    ensures NoRepeat(values) <==> DistinctNames(names)
  {
    forall j | 0 <= j < |names| ensures IsOnly(columns, names[j], values[j]) {
      TargetOfName(columns, names, j, values[j]);
    }
    forall k | 0 <= k < |columns| ensures k in Listed(values) <==> columns[k].name in names {
      if columns[k].name in names {
        var j :| 0 <= j < |names| && names[j] == columns[k].name;
        assert values[j] == k;
      }
      if k in Listed(values) {
        var j :| 0 <= j < |values| && values[j] == k;
        assert names[j] == columns[k].name;
      }
    }
  }

  /** Remove several columns by name. */
  method RemoveNames<T>(file: TableFile<T>, names: seq<string>) returns (ok: bool)
    requires file.Valid()
    modifies file
    ensures file.Valid() && file.table == old(file.table).(columns := file.table.columns)
    ensures !AreNames(old(file.table.columns), names) ==> !ok && file.table == old(file.table)
    ensures AreNames(old(file.table.columns), names) ==>
      (ok && file.table.columns == NotNamed(old(file.table.columns), names) <==> DistinctNames(names))
  {
    ghost var columns := file.table.columns;
    var keys := MakeKeys(names);
    ghost var targets := map k | k in keys :: k.Target(columns);
    forall j | 0 <= j < |names|
      ensures targets[keys[j]] == TargetsOf(columns, names)[j]
      ensures targets[keys[j]].Some? <==> IsName(columns, names[j])
      ensures targets[keys[j]].Some? ==> 0 <= targets[keys[j]].value < |columns|
    {
      TargetOfName(columns, names, j, 0);
    }
    assert AllFound(keys, targets) <==> AreNames(columns, names);
    assert AllInTable(keys, targets, |columns|) <==> AreNames(columns, names);
    if AreNames(columns, names) {
      ListedByName(columns, names, Values(keys, targets));
      UnlistedIsNotNamed(columns, Listed(Values(keys, targets)), names, 0);
      assert columns[0..] == columns;
    }
    ghost var order, cached;
    ok, order, cached := RemoveSeq(file, keys, targets);
  }

  // Read

  /** The resolved memory segment is inside the columns, which have the layout of the table columns of these names. */
  ghost predicate NamesInMemory<T>(table: Table<T>, names: seq<string>, repeats: seq<int>, was: seq<seq<T>>,
                                   resolved: (Segment, Segment))
  {
    && resolved.0.front >= 0 && resolved.1.front >= 0 && |names| == |repeats| == |was|
    && (forall j :: 0 <= j < |was| ==> repeats[j] >= 1 && resolved.1.back + 1 <= |was[j]| / repeats[j])
    && (forall j, i :: 0 <= j < |names| && IsOnly(table.columns, names[j], i) ==>
      repeats[j] == table.columns[i].repeat)
  }

  /** Each column has the elements of the table column of its name. */
  ghost predicate NamedCellsRead<T>(table: Table<T>, names: seq<string>, repeats: seq<int>, f: int, m: int, n: int,
                                    now: seq<seq<T>>)
  {
    && |names| == |repeats| == |now|
    && forall j, i, row, e ::
      0 <= j < |now| && IsOnly(table.columns, names[j], i) && m <= row < m + n && 0 <= e < repeats[j] ==>
      && Cell(now[j], repeats[j], row, e).Some?
      && Cell(now[j], repeats[j], row, e) == Cell(table.columns[i].data, repeats[j], f + (row - m), e)
  }

  lemma NamedCells<T>(table: Table<T>, names: seq<string>, repeats: seq<int>, f: int, m: int, n: int, now: seq<seq<T>>)
    requires CellsRead(table, TargetsOf(table.columns, names), repeats, f, m, n, now)
    ensures NamedCellsRead(table, names, repeats, f, m, n, now)
  {
    forall j, i, row, e |
      0 <= j < |now| && IsOnly(table.columns, names[j], i) && m <= row < m + n && 0 <= e < repeats[j]
      ensures Cell(now[j], repeats[j], row, e).Some?
      ensures Cell(now[j], repeats[j], row, e) == Cell(table.columns[i].data, repeats[j], f + (row - m), e)
    {
      TargetOfName(table.columns, names, j, i);
      assert CellRead(table, TargetsOf(table.columns, names)[j], repeats[j], f, m, now[j], row, e);
    }
  }

  method MakeTargetingKeys<T>(names: seq<string>, columns: seq<Column<T>>) returns (keys: seq<ColumnKey>)
    ensures fresh(keys) && KeysTarget(keys, TargetsOf(columns, names), columns)
  {
    keys := MakeKeys(names);
    forall j | 0 <= j < |names|
      ensures PassedOn(keys[j].Target(columns), |columns|) == TargetsOf(columns, names)[j]
    {
      TargetOfName(columns, names, j, 0);
    }
  }

  lemma NamesAreInMemory<T>(table: Table<T>, names: seq<string>, repeats: seq<int>, was: seq<seq<T>>,
                            resolved: (Segment, Segment))
    requires NamesInMemory(table, names, repeats, was, resolved)
    ensures InMemory(table, TargetsOf(table.columns, names), repeats, was, resolved)
  {
    var targets := TargetsOf(table.columns, names);
    forall j | 0 <= j < |names| && targets[j].Some? ensures repeats[j] == table.columns[targets[j].value].repeat {
      TargetOfName(table.columns, names, j, targets[j].value);
    }
  }

  lemma ReadableAreNames<T>(table: Table<T>, names: seq<string>, f: int, n: int)
    requires AllReadable(table, TargetsOf(table.columns, names), f, n)
    ensures n > 0 ==> AreNames(table.columns, names)
  {
    forall j | n > 0 && 0 <= j < |names| ensures IsName(table.columns, names[j]) {
      assert Readable(table, TargetsOf(table.columns, names)[j], f, n);
      TargetOfName(table.columns, names, j, 0);
    }
  }

  /** Read several columns by name. */
  method ReadNames<T>(file: TableFile<T>, rows: FileMemSegments, names: seq<string>, columns: seq<ColumnBuffer<T>>,
                      ghost was: seq<seq<T>>)
    returns (status: Status)
    requires file.Valid() && Distinct(columns) && |names| == |columns| && was == Snapshot(columns)
    requires AllEqual(RowCounts(columns, was)) ==>
      NamesInMemory(file.table, names, Repeats(columns), was,
        Resolved(rows.file, rows.memory, file.table.rows - 1, CommonCount(RowCounts(columns, was)) - 1))
    modifies rows, columns
    ensures status.RowCountsDiffer? <==> !AllEqual(RowCounts(columns, was))
    ensures !status.RowCountsDiffer? ==>
      (rows.file, rows.memory) ==
        old(Resolved(rows.file, rows.memory, file.table.rows - 1, CommonCount(RowCounts(columns, was)) - 1))
    ensures status.Done? && rows.memory.Size() > 0 ==> AreNames(file.table.columns, names)
    ensures status.Done? ==>
      NamedCellsRead(file.table, names, Repeats(columns), rows.file.front, rows.memory.front, rows.memory.Size(),
                     Snapshot(columns))
  {
    ghost var targets, repeats := TargetsOf(file.table.columns, names), Repeats(columns);
    var keys := MakeTargetingKeys(names, file.table.columns);
    if AllEqual(RowCounts(columns, was)) {
      NamesAreInMemory(file.table, names, repeats, was,
        Resolved(rows.file, rows.memory, file.table.rows - 1, CommonCount(RowCounts(columns, was)) - 1));
    }
    status := ReadSegmentSeqTo(file, rows, keys, columns, targets, was);
    if status.Done? {
      ReadableAreNames(file.table, names, rows.file.front, rows.memory.Size());
      NamedCells(file.table, names, repeats, rows.file.front, rows.memory.front, rows.memory.Size(), Snapshot(columns));
    }
  }
}
