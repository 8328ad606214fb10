/**
 Range loops over any region, empty ones included, as sequences of steps.
 */
module RegionLoops {

  import opened Wrappers
  import opened Geometry
  import opened Screening

  /** The carry from axis `i` on; there is no result if it goes past the last axis. */
  function CarriedFrom(region: Region, p: Position, i: nat): (r: Option<Position>)
    requires region.WellFormed() && |p| == |region.front| && i <= |p|
    ensures r.Some? ==> |r.value| == |p| && r.value[..i] == p[..i]
    decreases |p| - i
  {
    if i == |p| then Some(p)
    else if p[i] <= region.back[i] then CarriedFrom(region, p, i + 1)
    else if i + 1 == |p| then None
    else
      var r := CarriedFrom(region, p[i := region.front[i]][i + 1 := p[i + 1] + 1], i + 1);
      assert r.Some? ==> r.value[..i] == r.value[..i + 1][..i] == p[..i];
      r
  }

  /** The next position of an iterator. */
  function Stepped(region: Region, p: Position): (r: Option<Position>)
    requires region.WellFormed() && |p| == |region.front| >= 1
    ensures r.Some? ==> |r.value| == |p|
  {
    if p == region.back then Some(PastBack(region)) else CarriedFrom(region, p[0 := p[0] + 1], 0)
  }

  /** The position after `k` steps from the front. */
  function After(region: Region, k: nat): (r: Option<Position>)
    requires region.WellFormed() && |region.front| >= 1
    ensures r.Some? ==> |r.value| == |region.front|
  {
    if k == 0 then Some(region.front)
    else
      match After(region, k - 1)
      case None => None
      case Some(p) => Stepped(region, p)
  }

  /** The loop from begin to end makes exactly `k` steps. */
  ghost predicate LoopMakes(region: Region, k: int)
    requires region.WellFormed() && |region.front| >= 1
  {
    && 0 <= k && After(region, k) == Some(PastBack(region))
    && forall j: nat :: j < k ==> After(region, j).Some? && After(region, j) != Some(PastBack(region))
  }

  // Regions which are not empty

  lemma {:induction false} CarriedIsAdvanced(region: Region, current: Position, p: Position, i: nat)
    requires region.NonEmpty() && region.Contains(current) && current != region.back
    requires i <= |current| && Carrying(region, current, p, i)
    ensures CarriedFrom(region, p, i).Some? && region.Contains(CarriedFrom(region, p, i).value)
    ensures region.Rank(CarriedFrom(region, p, i).value) == region.Rank(current) + 1
    decreases |current| - i
  {
    if i < |current| {
      if p[i] <= region.back[i] {
        CarriedIsAdvanced(region, current, p, i + 1);
      } else {
        CarryPropagates(region, current, p, i);
        CarriedIsAdvanced(region, current, p[i := region.front[i]][i + 1 := p[i + 1] + 1], i + 1);
      }
    }
  }

  lemma SteppedIsAdvanced(region: Region, p: Position)
    requires region.NonEmpty() && region.Contains(p) && p != region.back
    ensures Stepped(region, p).Some? && region.Contains(Stepped(region, p).value)
    ensures region.Rank(Stepped(region, p).value) == region.Rank(p) + 1
  {
    CarryStarts(region, p);
    CarriedIsAdvanced(region, p, p[0 := p[0] + 1], 0);
  }

  lemma {:induction false} AfterRank(region: Region, k: nat)
    requires region.NonEmpty() && k < region.Size()
    ensures After(region, k).Some? && region.Contains(After(region, k).value)
    ensures region.Rank(After(region, k).value) == k
  {
    RankOfCorners(region);
    if k > 0 {
      AfterRank(region, k - 1);
      SteppedIsAdvanced(region, After(region, k - 1).value);
    }
  }

  lemma LoopOverPixels(region: Region)
    requires region.NonEmpty()
    ensures LoopMakes(region, region.Size())
  {
    var n := region.Size();
    RankBounds(region, region.front);
    forall j: nat | j < n ensures After(region, j).Some? && After(region, j) != Some(PastBack(region)) {
      AfterRank(region, j);
    }
    AfterRank(region, n - 1);
    RankOfBack(region, After(region, n - 1).value);
  }

  // Empty regions

  /** Coordinates stay at the fronts or above, and at the front of the first axis if it has no pixel. */
  ghost predicate IsReached(region: Region, p: Position)
    requires region.WellFormed()
  {
    && |p| == |region.front| >= 1 && (forall i :: 0 <= i < |p| ==> p[i] >= region.front[i])
    && (region.front[0] > region.back[0] ==> p[0] == region.front[0])
  }

  lemma {:induction false} CarriedStaysAbove(region: Region, p: Position, i: nat)
    requires region.WellFormed() && |p| == |region.front| && i <= |p|
    requires forall j :: 0 <= j < |p| ==> p[j] >= region.front[j]
    requires CarriedFrom(region, p, i).Some?
    ensures forall j :: 0 <= j < |p| ==> CarriedFrom(region, p, i).value[j] >= region.front[j]
    decreases |p| - i
  {
    if i < |p| {
      if p[i] <= region.back[i] {
        CarriedStaysAbove(region, p, i + 1);
      } else {
        CarriedStaysAbove(region, p[i := region.front[i]][i + 1 := p[i + 1] + 1], i + 1);
      }
    }
  }

  lemma SteppedIsReached(region: Region, p: Position)
    requires region.WellFormed() && !region.NonEmpty() && IsReached(region, p) && Stepped(region, p).Some?
    ensures IsReached(region, Stepped(region, p).value)
  {
    assert p != region.back;
    var q, r := p[0 := p[0] + 1], Stepped(region, p).value;
    CarriedStaysAbove(region, q, 0);
    if region.front[0] > region.back[0] {
      var c := q[0 := region.front[0]][1 := q[1] + 1];
      assert r == CarriedFrom(region, c, 1).value;
      assert r[0] == r[..1][0] == c[..1][0];
    }
  }

  lemma {:induction false} AfterIsReached(region: Region, k: nat)
    requires region.WellFormed() && |region.front| >= 1 && !region.NonEmpty() && After(region, k).Some?
    ensures IsReached(region, After(region, k).value)
  {
    if k > 0 {
      AfterIsReached(region, k - 1);
      SteppedIsReached(region, After(region, k - 1).value);
    }
  }

  /** The end is reached only from regions without any pixel along the first axis, and only along that one. */
  lemma EndOfEmpty(region: Region, k: nat)
    requires region.WellFormed() && |region.front| >= 1 && !region.NonEmpty()
    requires After(region, k) == Some(PastBack(region))
    ensures region.Shape()[0] == 0 && region.Size() == 0
  {
    AfterIsReached(region, k);
    assert forall i :: 1 <= i < |region.front| ==> PastBack(region)[i] == region.back[i];
  }

  /**
   The loop makes as many steps as the size of the region if and only if the region has pixels, or begins at the
   end: no pixel along the first axis and one along each of the others.
   */
  lemma LoopCondition(region: Region)
    requires region.WellFormed() && |region.front| >= 1
    ensures LoopMakes(region, region.Size()) <==> region.NonEmpty() || region.front == PastBack(region)
  {
    if region.NonEmpty() {
      LoopOverPixels(region);
    } else {
      if LoopMakes(region, region.Size()) {
        EndOfEmpty(region, region.Size());
      }
      if region.front == PastBack(region) {
        EndOfEmpty(region, 0);
      }
    }
  }

  /** A region without columns and with two lines: one step instead of none. */
  lemma EmptyCounterexample()
    ensures var region := Region([0, 0], [-1, 1]);
      region.Size() == 0 && !LoopMakes(region, 0) && LoopMakes(region, 1)
  {
    var region := Region([0, 0], [-1, 1]);
    assert region.Shape() == [0, 2];
    assert PastBack(region) == [0, 1];
    assert CarriedFrom(region, [0, 1], 2) == Some([0, 1]);
    assert CarriedFrom(region, [0, 1], 1) == Some([0, 1]);
    assert [1, 0][0 := 0][1 := 0 + 1] == [0, 1];
    assert CarriedFrom(region, [1, 0], 0) == Some([0, 1]);
    assert region.front[0 := 0 + 1] == [1, 0];
    assert After(region, 1) == Some([0, 1]);
  }
}
