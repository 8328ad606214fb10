/**
 Rasters, contiguity of a region in a raster, and the flat views (slices, sections) it allows.
 */
module Rasters {

  import opened Geometry

  /** Pixel values in storage order; also stands for the data unit of an image in the file. */
  class Raster<T> {
    const shape: Position
    const data: array<T>

    ghost predicate Valid()
    {
      && |shape| >= 1
      && (forall i :: 0 <= i < |shape| ==> shape[i] >= 0)
      && data.Length == ShapeSize(shape)
    }

    constructor (shape: Position, data: array<T>)
      requires |shape| >= 1 && forall i :: 0 <= i < |shape| ==> shape[i] >= 0
      requires data.Length == ShapeSize(shape)
      ensures Valid() && this.shape == shape && this.data == data
    {
      this.shape := shape;
      this.data := data;
    }

    function At(p: Position): (v: T)
      requires Valid() && InDomain(shape, p)
      reads data
    {
      IndexBounds(shape, p, 0);
      data[Index(shape, p)]
    }
  }

  ghost predicate InBounds(shape: Position, region: Region)
  {
    region.NonEmpty() && InDomain(shape, region.front) && InDomain(shape, region.back)
  }

  /** Every axis below `m - 1` is spanned, and the region is flat along every axis from `m`. */
  ghost predicate Contiguous(shape: Position, region: Region, m: nat)
    requires region.WellFormed() && |region.front| == |shape| && m <= |shape| + 1
  {
    && (forall i :: 0 <= i < m - 1 ==> region.front[i] == 0 && region.back[i] == shape[i] - 1)
    && FlatFrom(region, m)
  }

  ghost predicate FlatFrom(region: Region, m: nat)
    requires region.WellFormed()
  {
    forall i :: m <= i < |region.front| ==> region.back[i] == region.front[i]
  }

  method IsContiguous(shape: Position, region: Region, m: nat) returns (b: bool)
    requires region.WellFormed() && |region.front| == |shape| && 1 <= m <= |shape| + 1
    ensures b == Contiguous(shape, region, m)
    ensures b <==>
      && (forall i :: 0 <= i < m - 1 ==> region.front[i] == 0 && region.back[i] == shape[i] - 1)
      && (forall i :: m <= i < |shape| ==> region.back[i] == region.front[i])
  {
    for i := 0 to m - 1
      invariant forall j :: 0 <= j < i ==> region.front[j] == 0 && region.back[j] == shape[j] - 1
    {
      if region.front[i] != 0 || region.back[i] != shape[i] - 1 {
        return false;
      }
    }
    var i := m;
    while i < |shape|
      invariant m <= i
      invariant forall j :: m <= j < i && j < |shape| ==> region.back[j] == region.front[j]
    {
      if region.back[i] != region.front[i] {
        return false;
      }
      i := i + 1;
    }
    return true;
  }

  /** A raster of shape `shape` over the elements of a parent raster that start at `offset`. */
  datatype SliceResult = Slice(shape: Position, offset: int) | NotContiguous

  method MakeSlice<T>(raster: Raster<T>, region: Region, m: nat) returns (r: SliceResult)
    requires raster.Valid() && InBounds(raster.shape, region) && 1 <= m <= |raster.shape|
    ensures r.Slice? <==> Contiguous(raster.shape, region, m)
    ensures r.Slice? ==> r.shape == region.Shape()[..m] && r.offset == Index(raster.shape, region.front)
    ensures r.Slice? ==> 0 <= r.offset && r.offset + ShapeSize(r.shape) <= raster.data.Length
    ensures r.Slice? ==> forall q | InDomain(r.shape, q) ::
      && InDomain(raster.shape, Padded(region.front, q))
      && 0 <= r.offset + Index(r.shape, q) < raster.data.Length
      && raster.data[r.offset + Index(r.shape, q)] == raster.At(Padded(region.front, q))
  {
    var b := IsContiguous(raster.shape, region, m);
    if !b {
      return NotContiguous;
    }
    var reduced := [];
    for i := 0 to m
      invariant |reduced| == i
      invariant forall j :: 0 <= j < i ==> reduced[j] == region.back[j] - region.front[j] + 1
    {
      reduced := reduced + [region.back[i] - region.front[i] + 1];
    }
    assert reduced == region.Shape()[..m];
    r := Slice(reduced, Index(raster.shape, region.front));
    SliceFits(raster.shape, region, m);
  }

  /** The position at `q` from `front`, where `q` may have fewer coordinates. */
  function Padded(front: Position, q: Position): (r: Position)
    requires |q| <= |front|
  {
    Plus(front, Extend(q, Constant(|front|, 0)))
  }

  lemma PaddedInRegion(region: Region, m: nat, q: Position)
    requires region.NonEmpty() && 1 <= m <= |region.front|
    requires InDomain(region.Shape()[..m], q)
    ensures region.Contains(Padded(region.front, q))
  {
    forall i | 0 <= i < |region.front|
      ensures region.front[i] <= Padded(region.front, q)[i] <= region.back[i]
    {
      if i < m {
        assert region.Shape()[..m][i] == region.Shape()[i];
      }
    }
  }

  // When is a slice a faithful view?

  /** For every `q`, pixel `q` of the slice is the pixel of the raster at `front + q`. */
  ghost predicate IsAligned(shape: Position, region: Region, m: nat)
    requires region.NonEmpty() && |region.front| == |shape| && 1 <= m <= |shape|
  {
    forall q | InDomain(region.Shape()[..m], q) ::
      Index(shape, Padded(region.front, q)) == Index(shape, region.front) + Index(region.Shape()[..m], q)
  }

  /** The pixel at `p` is that of some `q` of the slice. */
  ghost predicate IsInSlice(region: Region, m: nat, p: Position)
    requires region.NonEmpty() && 1 <= m <= |region.front|
  {
    exists q :: InDomain(region.Shape()[..m], q) && Padded(region.front, q) == p
  }

  /** The slice is the region: each pixel of the slice is the right one, and every pixel of the region has its own. */
  ghost predicate IsView(shape: Position, region: Region, m: nat)
    requires region.NonEmpty() && |region.front| == |shape| && 1 <= m <= |shape|
  {
    IsAligned(shape, region, m) && forall p | region.Contains(p) :: IsInSlice(region, m, p)
  }

  /** Along each axis, either the whole length is covered or all the next ones are reduced to one pixel. */
  ghost predicate SpannedOrThin(shape: Position, region: Region, m: nat)
    requires region.NonEmpty() && |region.front| == |shape| && 1 <= m <= |shape|
  {
    forall i, j :: 0 <= i < j < m ==> region.Shape()[i] == shape[i] || region.Shape()[j] == 1
  }

  lemma AlignedCondition(shape: Position, region: Region, m: nat)
    requires InBounds(shape, region) && 1 <= m <= |shape|
    ensures IsAligned(shape, region, m) <==> SpannedOrThin(shape, region, m)
  {
    if SpannedOrThin(shape, region, m) {
      forall q | InDomain(region.Shape()[..m], q)
        ensures Index(shape, Padded(region.front, q)) == Index(shape, region.front) + Index(region.Shape()[..m], q)
      {
        ViewIndex(shape, region, m, q, 0);
      }
    }
    if IsAligned(shape, region, m) {
      forall i, j | 0 <= i < j < m && region.Shape()[i] != shape[i] && region.Shape()[j] != 1
        ensures false
      {
        NotAligned(shape, region, m, i, j);
      }
    }
  }

  lemma CoveredCondition(region: Region, m: nat)
    requires region.NonEmpty() && 1 <= m <= |region.front|
    ensures (forall p | region.Contains(p) :: IsInSlice(region, m, p)) <==> FlatFrom(region, m)
  {
    if FlatFrom(region, m) {
      forall p | region.Contains(p) ensures IsInSlice(region, m, p) {
        var q := Minus(p, region.front)[..m];
        assert InDomain(region.Shape()[..m], q);
        assert Padded(region.front, q) == p;
      }
    }
    if forall p | region.Contains(p) :: IsInSlice(region, m, p) {
      assert region.Contains(region.back);
      var q :| InDomain(region.Shape()[..m], q) && Padded(region.front, q) == region.back;
    }
  }

  /**
   The slice is a faithful view exactly for regions that are spanned or thin below `m`, and thin from `m` on;
   the test made by the code is sufficient.
   */
  lemma ViewCondition(shape: Position, region: Region, m: nat)
    requires InBounds(shape, region) && 1 <= m <= |shape|
    ensures IsView(shape, region, m) <==> SpannedOrThin(shape, region, m) && FlatFrom(region, m)
    ensures Contiguous(shape, region, m) ==> SpannedOrThin(shape, region, m) && FlatFrom(region, m)
  {
    AlignedCondition(shape, region, m);
    CoveredCondition(region, m);
  }

  /** In dimension 1, the whole line is accepted as 2-D, though there is no second axis to read; nothing else is. */
  lemma LineCondition(shape: Position, region: Region)
    requires region.WellFormed() && |region.front| == |shape| == 1
    ensures Contiguous(shape, region, 2) <==> region == Region([0], [shape[0] - 1])
  {
    if Contiguous(shape, region, 2) {
      assert region.front == [0] && region.back == [shape[0] - 1];
    }
  }

  /** A part of a row is a view, but is not accepted as contiguous. */
  lemma StricterThanNeeded()
    ensures var region := Region([1, 2], [2, 2]);
      InBounds([4, 4], region) && IsView([4, 4], region, 2) && !Contiguous([4, 4], region, 2)
  {
    var region := Region([1, 2], [2, 2]);
    assert region.front[0] == 1;
    assert region.Shape()[1] == 1;
    ViewCondition([4, 4], region, 2);
  }

  lemma SliceIsView(shape: Position, region: Region, m: nat)
    requires InBounds(shape, region) && 1 <= m <= |shape| && Contiguous(shape, region, m)
    ensures IsView(shape, region, m)
  {
    ViewCondition(shape, region, m);
  }

  lemma {:induction false} ViewIndex(shape: Position, region: Region, m: nat, q: Position, k: nat)
    requires InBounds(shape, region) && 1 <= m <= |shape| && SpannedOrThin(shape, region, m)
    requires InDomain(region.Shape()[..m], q) && k <= m
    ensures IndexFrom(shape, Padded(region.front, q), k)
         == IndexFrom(shape, region.front, k) + IndexFrom(region.Shape()[..m], q, k)
    decreases m - k
  {
    var p, f, r := Padded(region.front, q), region.front, region.Shape()[..m];
    if k == m {
      IndexLocal(shape, p, f, m);
    } else {
      ViewIndex(shape, region, m, q, k + 1);
      var d := IndexFrom(r, q, k + 1);
      Distribute(shape[k], IndexFrom(shape, f, k + 1), d);
      if r[k] != shape[k] {
        forall j | k < j < m ensures q[j] == 0 {
          assert region.Shape()[j] == 1 && r[j] == 1;
        }
        ZeroIndex(r, q, k + 1);
      }
    }
  }

  lemma Distribute(s: int, a: int, b: int)
    ensures s * (a + b) == s * a + s * b
  {
  }

  /** The distance between neighbours along axis `k`. */
  function Stride(shape: Position, k: nat): (r: int)
    requires k <= |shape|
  {
    if k == 0 then 1 else Stride(shape, k - 1) * shape[k - 1]
  }

  lemma {:induction false} UnitStep(shape: Position, p: Position, j: nat, k: nat)
    requires |shape| == |p| && k <= j < |p|
    ensures Stride(shape, k) * IndexFrom(shape, p[j := p[j] + 1], k)
         == Stride(shape, k) * IndexFrom(shape, p, k) + Stride(shape, j)
    decreases j - k
  {
    var q := p[j := p[j] + 1];
    if k == j {
      IndexLocal(shape, p, q, j + 1);
      Distribute(Stride(shape, k), IndexFrom(shape, p, k), 1);
    } else {
      UnitStep(shape, p, j, k + 1);
      Associate(Stride(shape, k), shape[k], p[k], IndexFrom(shape, p, k + 1));
      Associate(Stride(shape, k), shape[k], p[k], IndexFrom(shape, q, k + 1));
    }
  }

  lemma Associate(t: int, s: int, a: int, b: int)
    ensures t * (a + s * b) == t * a + (t * s) * b
  {
    assert t * (s * b) == (t * s) * b;
    Distribute(t, a, s * b);
  }

  lemma {:induction false} StrideBelow(shape: Position, reduced: Position, i: nat, k: nat)
    requires |reduced| <= |shape| && k <= |reduced|
    requires forall j :: 0 <= j < |reduced| ==> 1 <= reduced[j] <= shape[j]
    requires i < |reduced| && reduced[i] < shape[i]
    ensures 1 <= Stride(reduced, k) <= Stride(shape, k)
    ensures i < k ==> Stride(reduced, k) < Stride(shape, k)
    decreases k
  {
    if k > 0 {
      StrideBelow(shape, reduced, i, k - 1);
      var a, b, s, t := Stride(reduced, k - 1), Stride(shape, k - 1), reduced[k - 1], shape[k - 1];
      MulMonotone(a, s, t);
      MulMonotone(t, a, b);
      MulPositive(a, s);
      if i == k - 1 {
        MulMonotone(a, s + 1, t);
        Distribute(a, s, 1);
      } else if i < k {
        MulMonotone(t, a + 1, b);
        Distribute(t, a, 1);
      }
    }
  }

  lemma NotAligned(shape: Position, region: Region, m: nat, i: nat, j: nat)
    requires InBounds(shape, region) && 1 <= m <= |shape| && i < j < m
    requires region.Shape()[i] != shape[i] && region.Shape()[j] != 1
    ensures !IsAligned(shape, region, m)
  {
    var r, f := region.Shape()[..m], region.front;
    var zero := Constant(m, 0);
    var q := zero[j := 1];
    assert InDomain(r, q);
    assert Padded(f, q) == f[j := f[j] + 1];
    UnitStep(shape, f, j, 0);
    UnitStep(r, zero, j, 0);
    ZeroIndex(r, zero, 0);
    StrideBelow(shape, r, i, j);
  }

  lemma SliceFits(shape: Position, region: Region, m: nat)
    requires InBounds(shape, region) && 1 <= m <= |shape| && Contiguous(shape, region, m)
    ensures 0 <= Index(shape, region.front)
    ensures Index(shape, region.front) + ShapeSize(region.Shape()[..m]) <= ShapeSize(shape)
    ensures forall q | InDomain(region.Shape()[..m], q) ::
      && InDomain(shape, Padded(region.front, q))
      && Index(shape, region.front) + Index(region.Shape()[..m], q) == Index(shape, Padded(region.front, q))
      && 0 <= Index(shape, Padded(region.front, q)) < ShapeSize(shape)
  {
    var r, f := region.Shape()[..m], region.front;
    SliceIsView(shape, region, m);
    IndexBounds(shape, f, 0);
    forall q | InDomain(r, q)
      ensures InDomain(shape, Padded(f, q)) && 0 <= Index(shape, Padded(f, q)) < ShapeSize(shape)
    {
      PaddedInRegion(region, m, q);
      IndexBounds(shape, Padded(f, q), 0);
    }
    var last := Shift(r, -1);
    LastIndex(r, last, 0);
    assert InDomain(r, last);
  }

  /** The pixels of a contiguous region are one interval of the storage. */
  lemma SliceIsInterval(shape: Position, region: Region, m: nat)
    requires InBounds(shape, region) && 1 <= m <= |shape| && Contiguous(shape, region, m)
    ensures forall p | InDomain(shape, p) :: region.Contains(p) <==>
      Index(shape, region.front) <= Index(shape, p) < Index(shape, region.front) + region.Size()
  {
    forall p | InDomain(shape, p)
      ensures region.Contains(p) <==>
        Index(shape, region.front) <= Index(shape, p) < Index(shape, region.front) + region.Size()
    {
      SliceIsView(shape, region, m);
      SliceSize(region, m);
      var r, f := region.Shape()[..m], region.front;
      var base := Index(shape, f);
      if region.Contains(p) {
        var q := Minus(p, f)[..m];
        assert Padded(f, q) == p;
        assert InDomain(r, q);
        IndexBounds(r, q, 0);
      }
      if base <= Index(shape, p) < base + region.Size() {
        var q := UnravelFrom(r, Index(shape, p) - base, 0);
        assert q[0..] == q;
        IndexOfUnravel(r, Index(shape, p) - base, q, 0);
        PaddedInRegion(region, m, q);
        IndexInjective(shape, p, Padded(f, q));
      }
    }
  }

  /** Flat axes do not contribute to the size. */
  lemma SliceSize(region: Region, m: nat)
    requires region.NonEmpty() && 1 <= m <= |region.front| && FlatFrom(region, m)
    ensures ShapeSize(region.Shape()[..m]) == region.Size()
  {
    FlatSize(region.Shape(), m, 0);
  }

  lemma {:induction false} FlatSize(shape: Position, m: nat, k: nat)
    requires k <= m <= |shape| && forall i :: m <= i < |shape| ==> shape[i] == 1
    ensures SizeFrom(shape[..m], k) == SizeFrom(shape, k)
    decreases m - k
  {
    if k == m {
      OnesSize(shape, m);
    } else {
      FlatSize(shape, m, k + 1);
    }
  }

  lemma {:induction false} OnesSize(shape: Position, k: nat)
    requires k <= |shape| && forall i :: k <= i < |shape| ==> shape[i] == 1
    ensures SizeFrom(shape, k) == 1
    decreases |shape| - k
  {
    if k < |shape| {
      OnesSize(shape, k + 1);
    }
  }

  // Sections along the last axis

  function SectionRegion(shape: Position, front: int, back: int): (r: Region)
    requires |shape| >= 1
  {
    var d := Domain(shape);
    Region(d.front[|shape| - 1 := front], d.back[|shape| - 1 := back])
  }

  /** A section is always contiguous in its own dimension, and one dimension below exactly if it is flat. */
  lemma SectionsAreContiguous(shape: Position, front: int, back: int)
    requires |shape| >= 2
    ensures Contiguous(shape, SectionRegion(shape, front, back), |shape|)
    ensures Contiguous(shape, SectionRegion(shape, front, back), |shape| - 1) <==> front == back
  {
    var r := SectionRegion(shape, front, back);
    assert r.front[|shape| - 1] == front && r.back[|shape| - 1] == back;
  }
}
