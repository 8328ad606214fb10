/**
 Positions, regions and the raster index.

 A position is a coordinate vector of any dimension.  Pixels are stored first axis fastest, which is
 the order of section 3.3.2 of the FITS Standard 4.0, so the index of a position is the value of its
 coordinates read as a mixed-radix number whose least significant digit is the first coordinate.
 */
module Geometry {

  type Position = seq<int>

  function Plus(a: Position, b: Position): (r: Position)
    requires |a| == |b|
  {
    seq(|a|, i requires 0 <= i < |a| => a[i] + b[i])
  }

  function Minus(a: Position, b: Position): (r: Position)
    requires |a| == |b|
  {
    seq(|a|, i requires 0 <= i < |a| => a[i] - b[i])
  }

  /** Add a scalar to each coordinate. */
  function Shift(a: Position, s: int): (r: Position)
  {
    seq(|a|, i requires 0 <= i < |a| => a[i] + s)
  }

  /** A position of dimension `n` whose coordinates are all `v`. */
  function Constant(n: nat, v: int): (r: Position)
  {
    seq(n, i => v)
  }

  /** `p`, continued with the last coordinates of `padding`. */
  function Extend(p: Position, padding: Position): (r: Position)
    requires |p| <= |padding|
  {
    p + padding[|p|..]
  }

  /** An n-D box given by its two inclusive corners. */
  datatype Region = Region(front: Position, back: Position) {

    ghost predicate WellFormed() {
      |front| == |back|
    }

    /** At least one axis, and at least one index along each axis. */
    ghost predicate NonEmpty() {
      WellFormed() && |front| >= 1 && forall i :: 0 <= i < |front| ==> front[i] <= back[i]
    }

    function Shape(): (r: Position)
      requires WellFormed()
    {
      Shift(Minus(back, front), 1)
    }

    function Size(): (r: int)
      requires WellFormed()
    {
      ShapeSize(Shape())
    }

    predicate Contains(p: Position)
      requires WellFormed()
    {
      |p| == |front| && forall i :: 0 <= i < |front| ==> front[i] <= p[i] <= back[i]
    }

    /** The number of the pixel `p` when the region is read first axis fastest. */
    function Rank(p: Position): (r: int)
      requires WellFormed() && |p| == |front|
    {
      Index(Shape(), Minus(p, front))
    }

    /** The position of the pixel number `r`. */
    function Unrank(r: int): (p: Position)
      requires NonEmpty()
    {
      Plus(front, UnravelFrom(Shape(), r, 0))
    }

    /** The first pixel of each line along the first axis. */
    function LineFronts(): (r: Region)
      requires WellFormed() && |front| >= 1
    {
      Region(front, back[0 := front[0]])
    }
  }

  function FromShape(front: Position, shape: Position): (r: Region)
    requires |front| == |shape|
  {
    Region(front, Plus(front, Shift(shape, -1)))
  }

  /** The region of all the positions of a raster. */
  function Domain(shape: Position): (r: Region)
  {
    FromShape(Constant(|shape|, 0), shape)
  }

  predicate InDomain(shape: Position, p: Position)
  {
    |p| == |shape| && forall i :: 0 <= i < |shape| ==> 0 <= p[i] < shape[i]
  }

  ghost predicate Positive(shape: Position)
  {
    forall i :: 0 <= i < |shape| ==> shape[i] >= 1
  }

  /** The product of the lengths along the axes `k` and above. */
  function SizeFrom(shape: Position, k: nat): (r: int)
    requires k <= |shape|
    decreases |shape| - k
  {
    if k == |shape| then 1 else shape[k] * SizeFrom(shape, k + 1)
  }

  /** Number of pixels: 0 in dimension 0, the product of the lengths otherwise. */
  function ShapeSize(shape: Position): (r: int)
  {
    if |shape| == 0 then 0 else SizeFrom(shape, 0)
  }

  /** The mixed-radix value of the coordinates `k` and above. */
  function IndexFrom(shape: Position, pos: Position, k: nat): (r: int)
    requires |shape| == |pos| && k <= |pos|
    decreases |pos| - k
  {
    if k == |pos| then 0 else pos[k] + shape[k] * IndexFrom(shape, pos, k + 1)
  }

  function Index(shape: Position, pos: Position): (r: int)
    requires |shape| == |pos|
  {
    IndexFrom(shape, pos, 0)
  }

  /** The coordinates along the axes `k` and above of the pixel number `r`. */
  function UnravelFrom(shape: Position, r: int, k: nat): (p: Position)
    requires Positive(shape) && k <= |shape|
    ensures |p| == |shape| - k
    decreases |shape| - k
  {
    if k == |shape| then [] else [r % shape[k]] + UnravelFrom(shape, r / shape[k], k + 1)
  }

  /** The fixed-dimension recursion; `i` counts down from the dimension minus one. */
  function IndexRecursion(shape: Position, pos: Position, i: nat): (r: int)
    requires |shape| == |pos| && i < |pos|
    decreases i
  {
    var k := |pos| - 1 - i;
    if i == 0 then pos[k] else pos[k] + shape[k] * IndexRecursion(shape, pos, i - 1)
  }

  datatype IndexResult = IndexOk(index: int) | DimensionMismatch

  /** The variable-dimension loop, last axis first. */
  method IndexLoop(shape: Position, pos: Position) returns (r: IndexResult)
    ensures r.DimensionMismatch? <==> |shape| != |pos|
    ensures r.IndexOk? ==> r.index == Index(shape, pos)
  {
    var n := |shape|;
    if |pos| != n {
      return DimensionMismatch;
    }
    var res := 0;
    for j := 0 to n
      invariant res == IndexFrom(shape, pos, n - j)
    {
      res := pos[n - 1 - j] + shape[n - 1 - j] * res;
    }
    r := IndexOk(res);
  }

  lemma {:induction false} RecursionIsLoop(shape: Position, pos: Position, i: nat)
    requires |shape| == |pos| && i < |pos|
    ensures IndexRecursion(shape, pos, i) == IndexFrom(shape, pos, |pos| - 1 - i)
    decreases i
  {
    if i == 0 {
      assert IndexFrom(shape, pos, |pos|) == 0;
    } else {
      RecursionIsLoop(shape, pos, i - 1);
    }
  }

  // Bounds

  lemma {:induction false} SizeFromPositive(shape: Position, k: nat)
    requires Positive(shape) && k <= |shape|
    ensures SizeFrom(shape, k) >= 1
    decreases |shape| - k
  {
    if k < |shape| {
      SizeFromPositive(shape, k + 1);
      MulPositive(shape[k], SizeFrom(shape, k + 1));
    }
  }

  lemma MulPositive(a: int, b: int)
    requires a >= 1 && b >= 1
    ensures a * b >= 1 && a * b >= a && a * b >= b
  {
  }

  lemma MulBound(p: int, s: int, i: int, n: int)
    requires 0 <= p < s && 0 <= i < n
    ensures 0 <= p + s * i < s * n
  {
    assert s * i <= s * (n - 1);
    assert s * (n - 1) == s * n - s;
  }

  lemma {:induction false} IndexBounds(shape: Position, p: Position, k: nat)
    requires InDomain(shape, p) && k <= |p|
    ensures 0 <= IndexFrom(shape, p, k) < SizeFrom(shape, k)
    decreases |p| - k
  {
    if k < |p| {
      IndexBounds(shape, p, k + 1);
      MulBound(p[k], shape[k], IndexFrom(shape, p, k + 1), SizeFrom(shape, k + 1));
    }
  }

  /** `IndexFrom` only depends on the coordinates it reads. */
  lemma {:induction false} IndexLocal(shape: Position, p: Position, q: Position, k: nat)
    requires |shape| == |p| == |q| && k <= |p|
    requires forall i :: k <= i < |p| ==> p[i] == q[i]
    ensures IndexFrom(shape, p, k) == IndexFrom(shape, q, k)
    decreases |p| - k
  {
    if k < |p| {
      IndexLocal(shape, p, q, k + 1);
    }
  }

  // The index is a bijection

  lemma MulMonotone(s: int, a: int, b: int)
    requires s >= 0
    ensures a <= b ==> s * a <= s * b
  {
  }

  lemma QuotientUnique(s: int, i: int, p: int, j: int, q: int)
    requires 0 <= p < s && 0 <= q < s && p + s * i == q + s * j
    ensures i == j && p == q
  {
    MulMonotone(s, i + 1, j);
    MulMonotone(s, j + 1, i);
    assert s * (i + 1) == s * i + s && s * (j + 1) == s * j + s;
  }

  lemma DivModUnique(p: int, s: int, i: int)
    requires 0 <= p < s
    ensures (p + s * i) % s == p && (p + s * i) / s == i
  {
    var x := p + s * i;
    QuotientUnique(s, i, p, x / s, x % s);
  }

  lemma {:induction false} UnravelOfIndex(shape: Position, p: Position, k: nat)
    requires Positive(shape) && InDomain(shape, p) && k <= |p|
    ensures UnravelFrom(shape, IndexFrom(shape, p, k), k) == p[k..]
    decreases |p| - k
  {
    if k < |p| {
      UnravelOfIndex(shape, p, k + 1);
      DivModUnique(p[k], shape[k], IndexFrom(shape, p, k + 1));
    }
  }

  lemma DivBound(r: int, s: int, n: int)
    requires s >= 1 && 0 <= r < s * n
    ensures 0 <= r / s < n
  {
    assert r == s * (r / s) + r % s;
    MulMonotone(s, n, r / s);
    MulMonotone(s, r / s, -1);
  }

  lemma {:induction false} IndexOfUnravel(shape: Position, r: int, p: Position, k: nat)
    requires Positive(shape) && |p| == |shape| && k <= |p|
    requires 0 <= r < SizeFrom(shape, k)
    requires p[k..] == UnravelFrom(shape, r, k)
    ensures IndexFrom(shape, p, k) == r
    ensures forall i :: k <= i < |p| ==> 0 <= p[i] < shape[i]
    decreases |p| - k
  {
    if k < |p| {
      var s := shape[k];
      DivBound(r, s, SizeFrom(shape, k + 1));
      assert p[k] == r % s;
      assert p[k + 1..] == p[k..][1..] == UnravelFrom(shape, r / s, k + 1);
      IndexOfUnravel(shape, r / s, p, k + 1);
      assert r == s * (r / s) + r % s;
    }
  }

  /** The raster index is a bijection from the domain onto `[0, ShapeSize)`. */
  lemma IndexIsBijection(shape: Position)
    requires Positive(shape) && |shape| >= 1
    ensures forall p | InDomain(shape, p) ::
      0 <= Index(shape, p) < ShapeSize(shape) && UnravelFrom(shape, Index(shape, p), 0) == p
    ensures forall r | 0 <= r < ShapeSize(shape) ::
      InDomain(shape, UnravelFrom(shape, r, 0)) && Index(shape, UnravelFrom(shape, r, 0)) == r
  {
    forall p | InDomain(shape, p)
      ensures 0 <= Index(shape, p) < ShapeSize(shape) && UnravelFrom(shape, Index(shape, p), 0) == p
    {
      IndexBounds(shape, p, 0);
      UnravelOfIndex(shape, p, 0);
      assert p[0..] == p;
    }
    forall r | 0 <= r < ShapeSize(shape)
      ensures InDomain(shape, UnravelFrom(shape, r, 0)) && Index(shape, UnravelFrom(shape, r, 0)) == r
    {
      var p := UnravelFrom(shape, r, 0);
      assert p[0..] == p;
      IndexOfUnravel(shape, r, p, 0);
    }
  }

  /** Two positions of the domain with the same index are the same. */
  lemma IndexInjective(shape: Position, p: Position, q: Position)
    requires InDomain(shape, p) && InDomain(shape, q)
    requires Index(shape, p) == Index(shape, q)
    ensures p == q
  {
    assert Positive(shape);
    UnravelOfIndex(shape, p, 0);
    UnravelOfIndex(shape, q, 0);
    assert p[0..] == p && q[0..] == q;
  }

  // The index orders positions by their last differing coordinate

  ghost predicate LexLess(p: Position, q: Position, k: nat)
    requires |p| == |q| && k <= |p|
    decreases |p| - k
  {
    k < |p| && (LexLess(p, q, k + 1) || (p[k] < q[k] && p[k + 1..] == q[k + 1..]))
  }

  lemma {:induction false} LexIsIndexOrder(shape: Position, p: Position, q: Position, k: nat)
    requires InDomain(shape, p) && InDomain(shape, q) && k <= |p|
    ensures LexLess(p, q, k) <==> IndexFrom(shape, p, k) < IndexFrom(shape, q, k)
    ensures p[k..] == q[k..] <==> IndexFrom(shape, p, k) == IndexFrom(shape, q, k)
    decreases |p| - k
  {
    if k < |p| {
      LexIsIndexOrder(shape, p, q, k + 1);
      var s, i, j := shape[k], IndexFrom(shape, p, k + 1), IndexFrom(shape, q, k + 1);
      assert p[k..] == [p[k]] + p[k + 1..] && q[k..] == [q[k]] + q[k + 1..];
      if i < j {
        LeadingDigit(p[k], q[k], s, i, j);
      } else if j < i {
        LeadingDigit(q[k], p[k], s, j, i);
      }
      LexAsymmetric(p, q, k + 1);
    }
  }

  lemma LeadingDigit(a: int, b: int, s: int, i: int, j: int)
    requires 0 <= a < s && 0 <= b && i < j
    ensures a + s * i < b + s * j
  {
    MulMonotone(s, i + 1, j);
    assert s * (i + 1) == s * i + s;
  }

  lemma {:induction false} LexAsymmetric(p: Position, q: Position, k: nat)
    requires |p| == |q| && k <= |p|
    ensures p[k..] == q[k..] ==> !LexLess(p, q, k)
    decreases |p| - k
  {
    if k < |p| {
      LexAsymmetric(p, q, k + 1);
      if p[k..] == q[k..] {
        assert p[k] == p[k..][0] == q[k];
        assert p[k + 1..] == p[k..][1..] == q[k + 1..];
      }
    }
  }

  lemma {:induction false} LexTranslate(p: Position, q: Position, d: Position, k: nat)
    requires |p| == |q| == |d| && k <= |p|
    ensures LexLess(Minus(p, d), Minus(q, d), k) <==> LexLess(p, q, k)
    decreases |p| - k
  {
    if k < |p| {
      LexTranslate(p, q, d, k + 1);
      var x, y := Minus(p, d), Minus(q, d);
      if p[k + 1..] == q[k + 1..] {
        forall i | k + 1 <= i < |p| ensures p[i] == q[i] {
          assert p[k + 1..][i - k - 1] == q[k + 1..][i - k - 1];
        }
        assert x[k + 1..] == y[k + 1..];
      }
      if x[k + 1..] == y[k + 1..] {
        forall i | k + 1 <= i < |p| ensures p[i] == q[i] {
          assert x[k + 1..][i - k - 1] == y[k + 1..][i - k - 1];
        }
        assert p[k + 1..] == q[k + 1..];
      }
    }
  }

  /** Increasing rank in a region is increasing index in every raster that holds the region. */
  lemma RankOrderIsIndexOrder(region: Region, shape: Position, p: Position, q: Position)
    requires region.NonEmpty() && region.Contains(p) && region.Contains(q)
    requires InDomain(shape, region.front) && InDomain(shape, region.back)
    ensures region.Rank(p) < region.Rank(q) <==> Index(shape, p) < Index(shape, q)
  {
    LexIsIndexOrder(shape, p, q, 0);
    LexIsIndexOrder(region.Shape(), Minus(p, region.front), Minus(q, region.front), 0);
    LexTranslate(p, q, region.front, 0);
  }

  // Ranks in a region

  lemma RankBounds(region: Region, p: Position)
    requires region.NonEmpty() && region.Contains(p)
    ensures 0 <= region.Rank(p) < region.Size()
  {
    assert InDomain(region.Shape(), Minus(p, region.front));
    IndexBounds(region.Shape(), Minus(p, region.front), 0);
  }

  lemma RankInjective(region: Region, p: Position, q: Position)
    requires region.NonEmpty() && region.Contains(p) && region.Contains(q)
    requires region.Rank(p) == region.Rank(q)
    ensures p == q
  {
    var a, b := Minus(p, region.front), Minus(q, region.front);
    IndexInjective(region.Shape(), a, b);
    forall i | 0 <= i < |p| ensures p[i] == q[i] {
      assert a[i] == b[i];
    }
  }

  lemma UnrankIsInverse(region: Region, r: int)
    requires region.NonEmpty() && 0 <= r < region.Size()
    ensures region.Contains(region.Unrank(r)) && region.Rank(region.Unrank(r)) == r
  {
    var u := UnravelFrom(region.Shape(), r, 0);
    assert u[0..] == u;
    IndexOfUnravel(region.Shape(), r, u, 0);
    assert Minus(region.Unrank(r), region.front) == u;
  }

  lemma UnrankOfRank(region: Region, p: Position)
    requires region.NonEmpty() && region.Contains(p)
    ensures region.Unrank(region.Rank(p)) == p
  {
    RankBounds(region, p);
    UnrankIsInverse(region, region.Rank(p));
    RankInjective(region, region.Unrank(region.Rank(p)), p);
  }

  lemma {:induction false} ZeroIndex(shape: Position, p: Position, k: nat)
    requires |shape| == |p| && k <= |p|
    requires forall i :: k <= i < |p| ==> p[i] == 0
    ensures IndexFrom(shape, p, k) == 0
    decreases |p| - k
  {
    if k < |p| {
      ZeroIndex(shape, p, k + 1);
    }
  }

  lemma {:induction false} LastIndex(shape: Position, p: Position, k: nat)
    requires |shape| == |p| && k <= |p|
    requires forall i :: k <= i < |p| ==> p[i] == shape[i] - 1
    ensures IndexFrom(shape, p, k) == SizeFrom(shape, k) - 1
    decreases |p| - k
  {
    if k < |p| {
      LastIndex(shape, p, k + 1);
      assert shape[k] * (SizeFrom(shape, k + 1) - 1) == SizeFrom(shape, k) - shape[k];
    }
  }

  /** The front is the first pixel, the back the last one. */
  lemma RankOfCorners(region: Region)
    requires region.NonEmpty()
    ensures region.Rank(region.front) == 0
    ensures region.Rank(region.back) == region.Size() - 1
  {
    ZeroIndex(region.Shape(), Minus(region.front, region.front), 0);
    LastIndex(region.Shape(), Minus(region.back, region.front), 0);
  }
}
