/**
 The two odometers which screen a region pixel by pixel.

 Both move the current position to the next pixel of the region, first axis fastest, and drag
 follower positions along.  They differ after the back of the region: `PositionIterator` steps to a
 past-the-end position and leaves its followers where they are, `RegionScreener` wraps to the front.
 */
module Screening {

  import opened Geometry

  /** `follower` is as far from its own front as `current` is from the front of the region. */
  ghost predicate Follows(region: Region, current: Position, front: Position, follower: Position)
  {
    && |front| == |follower| == |current| == |region.front|
    && forall i :: 0 <= i < |current| ==> follower[i] == front[i] + current[i] - region.front[i]
  }

  ghost predicate Following(region: Region, current: Position, fronts: seq<Position>, followers: seq<Position>)
  {
    |followers| == |fronts| && forall j :: 0 <= j < |fronts| ==> Follows(region, current, fronts[j], followers[j])
  }

  lemma FollowingAtFront(region: Region, fronts: seq<Position>)
    requires forall j :: 0 <= j < |fronts| ==> |fronts[j]| == |region.front|
    ensures Following(region, region.front, fronts, fronts)
  {
  }

  /** Where an iterator stands once the region is exhausted. */
  function PastBack(region: Region): (r: Position)
    requires |region.back| >= 1
  {
    region.back[0 := region.back[0] + 1]
  }

  // The carry

  lemma {:induction false} CarryKeepsIndex(shape: Position, d: Position, i: nat, k: nat)
    requires |shape| == |d| && k <= i && i + 1 < |d| && d[i] == shape[i]
    ensures IndexFrom(shape, d[i := 0][i + 1 := d[i + 1] + 1], k) == IndexFrom(shape, d, k)
    decreases i - k
  {
    var e := d[i := 0][i + 1 := d[i + 1] + 1];
    if k < i {
      CarryKeepsIndex(shape, d, i, k + 1);
    } else {
      IndexLocal(shape, d, e, i + 2);
      var high := IndexFrom(shape, d, i + 1);
      assert IndexFrom(shape, e, i + 1) == high + 1;
      assert shape[i] * (high + 1) == shape[i] * high + shape[i];
    }
  }

  lemma CarryKeepsRank(region: Region, p: Position, i: nat)
    requires region.WellFormed() && |p| == |region.front| && i + 1 < |p| && p[i] == region.back[i] + 1
    ensures region.Rank(p[i := region.front[i]][i + 1 := p[i + 1] + 1]) == region.Rank(p)
  {
    var d := Minus(p, region.front);
    assert Minus(p[i := region.front[i]][i + 1 := p[i + 1] + 1], region.front) == d[i := 0][i + 1 := d[i + 1] + 1];
    CarryKeepsIndex(region.Shape(), d, i, 0);
  }

  lemma IncrementAddsOne(region: Region, p: Position)
    requires region.WellFormed() && |p| == |region.front| >= 1
    ensures region.Rank(p[0 := p[0] + 1]) == region.Rank(p) + 1
  {
    IndexLocal(region.Shape(), Minus(p, region.front), Minus(p[0 := p[0] + 1], region.front), 1);
  }

  /** Add 1 to the coordinate `i` of each follower. */
  method BumpFollowers(followers: seq<Position>, i: nat) returns (r: seq<Position>)
    requires forall j :: 0 <= j < |followers| ==> i < |followers[j]|
    ensures |r| == |followers|
    ensures forall j :: 0 <= j < |r| ==> r[j] == followers[j][i := followers[j][i] + 1]
  {
    r := followers;
    for j := 0 to |followers|
      invariant |r| == |followers|
      invariant forall l :: 0 <= l < j ==> r[l] == followers[l][i := followers[l][i] + 1]
      invariant forall l :: j <= l < |r| ==> r[l] == followers[l]
    {
      r := r[j := r[j][i := r[j][i] + 1]];
    }
  }

  /** Reset the coordinate `i` of each follower to its front and add 1 to the next coordinate. */
  method CarryFollowers(fronts: seq<Position>, followers: seq<Position>, i: nat) returns (r: seq<Position>)
    requires |fronts| == |followers|
    requires forall j :: 0 <= j < |followers| ==> i + 1 < |followers[j]| && i < |fronts[j]|
    ensures |r| == |followers|
    ensures forall j :: 0 <= j < |r| ==>
      r[j] == followers[j][i := fronts[j][i]][i + 1 := followers[j][i + 1] + 1]
  {
    r := followers;
    for j := 0 to |followers|
      invariant |r| == |followers|
      invariant forall l :: 0 <= l < j ==>
        r[l] == followers[l][i := fronts[l][i]][i + 1 := followers[l][i + 1] + 1]
      invariant forall l :: j <= l < |r| ==> r[l] == followers[l]
    {
      r := r[j := r[j][i := fronts[j][i]]];
      r := r[j := r[j][i + 1 := r[j][i + 1] + 1]];
    }
  }

  lemma BumpedFollow(region: Region, p: Position, fronts: seq<Position>, f: seq<Position>, g: seq<Position>)
    requires Following(region, p, fronts, f) && |g| == |f| && |p| >= 1
    requires forall j :: 0 <= j < |g| ==> |f[j]| >= 1 && g[j] == f[j][0 := f[j][0] + 1]
    ensures Following(region, p[0 := p[0] + 1], fronts, g)
  {
    forall j | 0 <= j < |fronts|
      ensures Follows(region, p[0 := p[0] + 1], fronts[j], g[j])
    {
      assert Follows(region, p, fronts[j], f[j]);
    }
  }

  lemma CarriedFollow(
    region: Region, p: Position, i: nat, fronts: seq<Position>, f: seq<Position>, g: seq<Position>)
    requires Following(region, p, fronts, f) && |g| == |f| && i + 1 < |p| == |region.front|
    requires forall j :: 0 <= j < |g| ==> |f[j]| == |fronts[j]| == |p|
    requires forall j :: 0 <= j < |g| ==> g[j] == f[j][i := fronts[j][i]][i + 1 := f[j][i + 1] + 1]
    ensures Following(region, p[i := region.front[i]][i + 1 := p[i + 1] + 1], fronts, g)
  {
    var q := p[i := region.front[i]][i + 1 := p[i + 1] + 1];
    forall j | 0 <= j < |fronts|
      ensures Follows(region, q, fronts[j], g[j])
    {
      assert Follows(region, p, fronts[j], f[j]);
    }
  }

  /**
   Before axis `i` is examined, `next` is worth one more pixel than `current`, and only its coordinate
   `i` may be one too far, in which case `current` is at the back on every axis up to `i`.
   */
  ghost predicate Carrying(region: Region, current: Position, next: Position, i: nat)
    requires region.NonEmpty() && |current| == |region.front|
  {
    && |next| == |current|
    && region.Rank(next) == region.Rank(current) + 1
    && (forall j :: 0 <= j < i && j < |next| ==> region.front[j] <= next[j] <= region.back[j])
    && (forall j :: i < j < |next| ==> next[j] == current[j])
    && (i < |next| ==> region.front[i] <= next[i] <= region.back[i] + 1)
    && (i < |next| && next[i] > region.back[i] ==> forall j :: 0 <= j <= i ==> current[j] == region.back[j])
  }

  lemma CarryStarts(region: Region, current: Position)
    requires region.NonEmpty() && region.Contains(current)
    ensures Carrying(region, current, current[0 := current[0] + 1], 0)
  {
    IncrementAddsOne(region, current);
  }

  /** A coordinate that is too far carries over, and never past the last axis. */
  lemma CarryPropagates(region: Region, current: Position, next: Position, i: nat)
    requires region.NonEmpty() && region.Contains(current) && current != region.back
    requires i < |current| && Carrying(region, current, next, i) && next[i] > region.back[i]
    ensures i + 1 < |next|
    ensures Carrying(region, current, next[i := region.front[i]][i + 1 := next[i + 1] + 1], i + 1)
  {
    if i + 1 < |next| {
      CarryKeepsRank(region, next, i);
    }
  }

  /** The step shared by both odometers, before the back of the region is reached. */
  method Advance(region: Region, current: Position, fronts: seq<Position>, followers: seq<Position>)
    returns (next: Position, moved: seq<Position>)
    requires region.NonEmpty() && region.Contains(current) && current != region.back
    requires Following(region, current, fronts, followers)
    ensures region.Contains(next) && region.Rank(next) == region.Rank(current) + 1
    ensures Following(region, next, fronts, moved)
  {
    next := current[0 := current[0] + 1];
    CarryStarts(region, current);
    moved := BumpFollowers(followers, 0);
    BumpedFollow(region, current, fronts, followers, moved);
    for i := 0 to |next|
      invariant Carrying(region, current, next, i)
      invariant Following(region, next, fronts, moved)
    {
      if next[i] > region.back[i] {
        CarryPropagates(region, current, next, i);
        var carried := CarryFollowers(fronts, moved, i);
        CarriedFollow(region, next, i, fronts, moved, carried);
        next := next[i := region.front[i]];
        next := next[i + 1 := next[i + 1] + 1];
        moved := carried;
      }
    }
  }

  /** Iterator over a region, as used by range loops. */
  class PositionIterator {
    const region: Region
    const fronts: seq<Position>
    var current: Position
    var followers: seq<Position>

    ghost predicate Valid()
      reads this
    {
      && region.NonEmpty()
      && (forall j :: 0 <= j < |fronts| ==> |fronts[j]| == |region.front|)
      && if current == PastBack(region) then Following(region, region.back, fronts, followers)
         else region.Contains(current) && Following(region, current, fronts, followers)
    }

    /** How many steps were made since the front. */
    ghost function Steps(): (r: int)
      requires Valid()
      reads this
    {
      if current == PastBack(region) then region.Size() else region.Rank(current)
    }

    constructor (r: Region, f: seq<Position>)
      requires r.NonEmpty() && forall j :: 0 <= j < |f| ==> |f[j]| == |r.front|
      ensures Valid() && region == r && fronts == f && followers == f && current == r.front && Steps() == 0
    {
      region, fronts, followers, current := r, f, f, r.front;
      RankOfCorners(r);
    }

    method Next()
      requires Valid() && current != PastBack(region)
      modifies this
      ensures Valid() && Steps() == old(Steps()) + 1
      ensures current == PastBack(region) <==> old(current) == region.back
      ensures current == PastBack(region) ==> followers == old(followers)
    {
      RankOfCorners(region);
      if current == region.back {
        current := current[0 := current[0] + 1];
        return;
      }
      current, followers := Advance(region, current, fronts, followers);
    }

    method Reset()
      requires Valid()
      modifies this
      ensures Valid() && Steps() == 0 && current == region.front && followers == fronts
    {
      current := region.front;
      followers := fronts;
      RankOfCorners(region);
    }
  }

  /**
   The range loop from begin to end: every position of the region, in raster order, once each.
   */
  method Positions(region: Region) returns (visited: seq<Position>)
    requires region.NonEmpty()
    ensures |visited| == region.Size()
    ensures forall i :: 0 <= i < |visited| ==> region.Contains(visited[i]) && region.Rank(visited[i]) == i
  {
    var it := new PositionIterator(region, []);
    var end := PastBack(region);
    visited := [];
    RankBounds(region, region.front);
    while it.current != end
      invariant it.Valid() && it.region == region
      invariant |visited| == it.Steps() <= region.Size()
      invariant forall i :: 0 <= i < |visited| ==> region.Contains(visited[i]) && region.Rank(visited[i]) == i
      decreases region.Size() - it.Steps()
    {
      RankBounds(region, it.current);
      visited := visited + [it.current];
      it.Next();
    }
  }

  /** What `Positions` returns, seen from a raster that holds the region. */
  lemma VisitedOnceInOrder(region: Region, shape: Position, visited: seq<Position>)
    requires region.NonEmpty() && InDomain(shape, region.front) && InDomain(shape, region.back)
    requires |visited| == region.Size()
    requires forall i :: 0 <= i < |visited| ==> region.Contains(visited[i]) && region.Rank(visited[i]) == i
    ensures forall i, j :: 0 <= i < j < |visited| ==>
      |visited[i]| == |visited[j]| == |shape| && Index(shape, visited[i]) < Index(shape, visited[j])
    ensures forall p | region.Contains(p) :: multiset(visited)[p] == 1
    ensures forall p | p in visited :: region.Contains(p)
  {
    forall i, j | 0 <= i < j < |visited|
      ensures Index(shape, visited[i]) < Index(shape, visited[j])
    {
      RankOrderIsIndexOrder(region, shape, visited[i], visited[j]);
    }
    forall p | region.Contains(p)
      ensures multiset(visited)[p] == 1
    {
      RankBounds(region, p);
      var k := region.Rank(p);
      RankInjective(region, visited[k], p);
      assert visited == visited[..k] + [p] + visited[k + 1..];
      assert p !in visited[..k] && p !in visited[k + 1..];
    }
  }

  /** Screener which wraps around its region. */
  class RegionScreener {
    const region: Region
    const fronts: seq<Position>
    var current: Position
    var followers: seq<Position>

    ghost predicate Valid()
      reads this
    {
      region.NonEmpty() && region.Contains(current) && Following(region, current, fronts, followers)
    }

    constructor (r: Region, f: seq<Position>)
      requires r.NonEmpty() && forall j :: 0 <= j < |f| ==> |f[j]| == |r.front|
      ensures Valid() && region == r && fronts == f && current == r.front && followers == f
    {
      region, fronts, followers, current := r, f, f, r.front;
    }

    method Next()
      requires Valid()
      modifies this
      ensures Valid() && current == NextScreened(region, old(current))
      ensures region.Rank(current) ==
        if region.Rank(old(current)) == region.Size() - 1 then 0 else region.Rank(old(current)) + 1
    {
      RankOfCorners(region);
      RankOfBack(region, current);
      if current == region.back {
        current := region.front;
        followers := fronts;
      } else {
        current, followers := Advance(region, current, fronts, followers);
      }
      UnrankOfRank(region, current);
      SuccessorModulo(region.Rank(old(current)), region.Size());
    }

    method Reset()
      requires Valid()
      modifies this
      ensures Valid() && current == region.front && followers == fronts
    {
      current := region.front;
      followers := fronts;
      FollowingAtFront(region, fronts);
    }
  }

  /** Only the back has the last rank. */
  lemma RankOfBack(region: Region, p: Position)
    requires region.NonEmpty() && region.Contains(p)
    ensures 0 <= region.Rank(p) < region.Size()
    ensures region.Rank(p) == region.Size() - 1 <==> p == region.back
  {
    RankBounds(region, p);
    RankOfCorners(region);
    if region.Rank(p) == region.Size() - 1 {
      RankInjective(region, p, region.back);
    }
  }

  /** Modulo arithmetic on the rank. */
  function NextScreened(region: Region, p: Position): (r: Position)
    requires region.NonEmpty() && region.Contains(p)
  {
    RankBounds(region, p);
    region.Unrank((region.Rank(p) + 1) % region.Size())
  }

  lemma SuccessorModulo(r: int, n: int)
    requires 0 <= r < n
    ensures (r + 1) % n == if r == n - 1 then 0 else r + 1
  {
    if r == n - 1 {
      DivModUnique(0, n, 1);
    } else {
      DivModUnique(r + 1, n, 0);
    }
  }

  lemma ModuloStep(x: int, n: int)
    requires n > 0
    ensures (x % n + 1) % n == (x + 1) % n
  {
    SuccessorModulo(x % n, n);
    NextQuotient(x + 1, n, x / n, x % n);
  }

  lemma NextQuotient(y: int, n: int, q: int, r: int)
    requires 0 <= r < n && y == n * q + r + 1
    ensures y % n == if r == n - 1 then 0 else r + 1
  {
    if r == n - 1 {
      assert n * (q + 1) == n * q + n;
      DivModUnique(0, n, q + 1);
    } else {
      DivModUnique(r + 1, n, q);
    }
  }

  lemma ModuloPeriod(a: int, k: int, n: int)
    requires 0 <= a < n
    ensures (a + k) % n == a <==> k % n == 0
  {
    var q := (a + k) / n;
    if (a + k) % n == a {
      DivModUnique(0, n, q);
    }
    if k % n == 0 {
      DivModUnique(a, n, k / n);
    }
  }

  /** `k` calls to `RegionScreener.Next`. */
  ghost function ScreenedAfter(region: Region, p: Position, k: nat): (r: Position)
    requires region.NonEmpty() && region.Contains(p)
    ensures region.Contains(r)
    decreases k
  {
    if k == 0 then p else
      var q := ScreenedAfter(region, p, k - 1);
      RankBounds(region, q);
      SuccessorModulo(region.Rank(q), region.Size());
      UnrankIsInverse(region, (region.Rank(q) + 1) % region.Size());
      NextScreened(region, q)
  }

  lemma {:induction false} ScreenedRank(region: Region, p: Position, k: nat)
    requires region.NonEmpty() && region.Contains(p)
    ensures region.Size() > 0
    ensures region.Rank(ScreenedAfter(region, p, k)) == (region.Rank(p) + k) % region.Size()
    decreases k
  {
    RankBounds(region, p);
    var n, a := region.Size(), region.Rank(p);
    if k == 0 {
      DivModUnique(a, n, 0);
    } else {
      ScreenedRank(region, p, k - 1);
      ModuloStep(a + (k - 1), n);
      var q := ScreenedAfter(region, p, k - 1);
      RankBounds(region, q);
      SuccessorModulo(region.Rank(q), n);
      UnrankIsInverse(region, (region.Rank(q) + 1) % n);
    }
  }

  /** The screener is back where it started exactly every `Size()` steps. */
  lemma ScreenerPeriod(region: Region, p: Position, k: nat)
    requires region.NonEmpty() && region.Contains(p)
    ensures region.Size() > 0
    ensures ScreenedAfter(region, p, k) == p <==> k % region.Size() == 0
  {
    ScreenedRank(region, p, k);
    RankBounds(region, p);
    ModuloPeriod(region.Rank(p), k, region.Size());
    if k % region.Size() == 0 {
      RankInjective(region, p, ScreenedAfter(region, p, k));
    }
  }
}
