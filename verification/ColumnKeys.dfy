/**
 The table in the file, and the keys by which its columns are found.
 */
module ColumnKeys {

  import opened Wrappers
  import opened Tables
  import opened Geometry

  /** The binary table of an HDU; `bufferRows` is the number of rows CFITSIO handles at once. */
  class TableFile<T> {
    var table: Table<T>
    const bufferRows: int

    ghost predicate Valid()
      reads this
    {
      table.Valid() && bufferRows >= 1
    }

    constructor (table: Table<T>, bufferRows: int)
      requires table.Valid() && bufferRows >= 1
      ensures Valid() && this.table == table && this.bufferRows == bufferRows
    {
      this.table := table;
      this.bufferRows := bufferRows;
    }
  }

  /** An index, backward if it is negative. */
  function Forward(i: int, count: int): (r: int)
  {
    if i < 0 then i + count else i
  }

  /** The column index that a key with these cached values stands for, if any. */
  function KeyTarget<T>(index: Option<int>, name: Option<string>, columns: seq<Column<T>>): (r: Option<int>)
  {
    match (index, name)
    case (Some(i), _) => Some(Forward(i, |columns|))
    case (None, Some(n)) => (match Find(columns, n) case Some(i) => Some(i) case None => None)
    case (None, None) => None
  }

  /** A name stands for the only column of that name. */
  lemma NameTarget<T>(name: string, columns: seq<Column<T>>, i: int)
    ensures KeyTarget(None, Some(name), columns) == Some(i) <==> IsOnly(columns, name, i)
  {
    var found := Find(columns, name);
    if found.Some? {
      assert IsOnly(columns, name, found.value);
    }
  }

  /** A key given by an index, possibly backward, or a name; what is evaluated is cached. */
  class ColumnKey {
    var index: Option<int>
    var name: Option<string>

    ghost predicate Valid()
      reads this
    {
      index.Some? || name.Some?
    }

    constructor FromIndex(i: int)
      ensures Valid() && index == Some(i) && name == None
    {
      index := Some(i);
      name := None;
    }

    constructor FromName(n: string)
      ensures Valid() && index == None && name == Some(n)
    {
      index := None;
      name := Some(n);
    }

    ghost function Target<T>(columns: seq<Column<T>>): (r: Option<int>)
      reads this
    {
      KeyTarget(index, name, columns)
    }

    /** Evaluate the index; there is none if the name is not that of exactly one column. */
    method Index<T>(file: TableFile<T>) returns (r: Option<int>)
      requires Valid()
      modifies this
      ensures Valid() && name == old(name) && r == old(Target(file.table.columns))
      ensures index == if r.Some? then r else old(index)
      ensures old(index).Some? ==>
        r == Some(if old(index).value < 0 then old(index).value + |file.table.columns| else old(index).value)
      ensures old(index).None? ==> forall i :: r == Some(i) <==> IsOnly(file.table.columns, old(name).value, i)
      ensures r.Some? && r.value >= 0 ==> forall columns: seq<Column<T>> :: Target(columns) == r
    {
      if index.Some? {
        if index.value < 0 {
          index := Some(index.value + |file.table.columns|);
        }
      } else {
        var i := Find(file.table.columns, name.value);
        if i.None? {
          return None;
        }
        index := Some(i.value);
      }
      r := index;
    }
  }

  /** The column which is read when the value of a key is passed on as a key. */
  function PassedOn(index: Option<int>, count: int): (r: Option<int>)
  {
    match index
    case None => None
    case Some(i) => Some(Forward(i, count))
  }

  /**
   Evaluating a key twice gives the same column exactly if the key is not a backward index before the
   first column: such an index moves by the number of columns at each evaluation.
   */
  lemma EvaluatedOnceCondition<T>(index: Option<int>, name: Option<string>, columns: seq<Column<T>>)
    requires KeyTarget(index, name, columns).Some? && |columns| > 0
    ensures PassedOn(KeyTarget(index, name, columns), |columns|) == KeyTarget(index, name, columns) <==>
      (index.Some? ==> index.value >= -|columns|)
    ensures KeyTarget(KeyTarget(index, name, columns), name, columns) ==
      PassedOn(KeyTarget(index, name, columns), |columns|)
  {
  }

  /** Among four columns, -5 stands for none; once passed on, it stands for the column 3. */
  lemma ReadOfNoColumn<T>(columns: seq<Column<T>>)
    requires |columns| == 4
    ensures KeyTarget(Some(-5), None, columns) == Some(-1)
    ensures PassedOn(KeyTarget(Some(-5), None, columns), 4) == Some(3)
  {
  }

  /** An index after several evaluations. */
  function Drifted(i: int, count: int, evaluations: nat): (r: int)
  {
    if evaluations == 0 then i else Forward(Drifted(i, count, evaluations - 1), count)
  }

  /**
   An index is that of a column after `evaluations` if and only if it is not before that many times the count
   of columns; the column is then the same, modulo the count.
   */
  lemma {:induction false} DriftCondition(i: int, count: int, evaluations: nat)
    requires count > 0
    ensures 0 <= Drifted(i, count, evaluations) < count <==> -(count * evaluations) <= i < count
    ensures 0 <= Drifted(i, count, evaluations) < count ==> Drifted(i, count, evaluations) == i % count
    ensures if i < -(count * evaluations) then Drifted(i, count, evaluations) == i + count * evaluations
            else Drifted(i, count, evaluations) >= 0 && (i >= 0 ==> Drifted(i, count, evaluations) == i)
  {
    if evaluations == 0 {
      if 0 <= i < count {
        Landed(i, count, 0, i);
      }
    } else {
      DriftCondition(i, count, evaluations - 1);
      var reach := count * (evaluations - 1);
      assert count * evaluations == reach + count;
      if -(reach + count) <= i < -reach {
        Landed(i, count, evaluations, i + reach + count);
      }
    }
  }

  lemma Landed(i: int, count: int, turns: int, d: int)
    requires 0 <= d < count && d == i + count * turns
    ensures d == i % count
  {
    var back: int := 0 - turns;
    assert count * back == -(count * turns);
    DivModUnique(d, count, back);
  }

  /** An index may be found as `v` after some evaluations, `t` being found first. */
  ghost predicate DriftsTo(t: int, v: int, count: int)
  {
    exists evaluations: nat :: v == Drifted(t, count, evaluations)
  }

  lemma DriftsFurther(t: int, v: int, count: int)
    ensures DriftsTo(t, t, count)
    ensures DriftsTo(t, v, count) ==> DriftsTo(t, Forward(v, count), count)
  {
    assert t == Drifted(t, count, 0);
    if DriftsTo(t, v, count) {
      var e: nat :| v == Drifted(t, count, e);
      assert Forward(v, count) == Drifted(t, count, e + 1);
    }
  }

  /** Indices of columns do not move. */
  lemma DriftsNowhere(t: int, v: int, count: int)
    requires t >= 0
    ensures DriftsTo(t, v, count) <==> v == t
  {
    DriftsFurther(t, t, count);
    if DriftsTo(t, v, count) {
      var e: nat :| v == Drifted(t, count, e);
      StaysForward(t, count, e);
    }
  }

  lemma {:induction false} StaysForward(t: int, count: int, evaluations: nat)
    requires t >= 0
    ensures Drifted(t, count, evaluations) == t
  {
    if evaluations > 0 {
      StaysForward(t, count, evaluations - 1);
    }
  }
}
