/**
 The number of rows of several columns.
 */
module RowCounting {

  import opened Wrappers
  import opened Tables

  /** The outcome of an operation on several columns. */
  datatype Status = Done | RowCountsDiffer | CfitsioError

  lemma RowCapacity(size: int, repeat: int, rows: int)
    requires repeat >= 1 && 0 <= rows <= size / repeat
    ensures 0 <= rows * repeat <= size
  {
    GrowthBounds(rows, size / repeat, repeat);
    assert size == repeat * (size / repeat) + size % repeat;
  }

  ghost predicate AllEqual(counts: seq<int>)
  {
    forall i, j :: 0 <= i < |counts| && 0 <= j < |counts| ==> counts[i] == counts[j]
  }

  /** The number of rows of columns which all have the same, or -1. */
  function CommonCount(counts: seq<int>): (r: int)
  {
    if |counts| == 0 then -1 else counts[0]
  }

  /** The common number of rows of the columns, -1 if there is no column, nothing if they differ. */
  method RowCountOf(counts: seq<int>) returns (r: Option<int>)
    requires forall j :: 0 <= j < |counts| ==> counts[j] >= 0
    ensures r.Some? <==> AllEqual(counts)
    ensures r.Some? ==> r.value == CommonCount(counts)
  {
    var rows := -1;
    for j := 0 to |counts|
      invariant j == 0 ==> rows == -1
      invariant j > 0 ==> rows == counts[0]
      invariant forall l :: 0 <= l < j ==> counts[l] == rows
    {
      if rows == -1 {
        rows := counts[j];
      } else if counts[j] != rows {
        return None;
      }
    }
    r := Some(rows);
  }
}
