/**
 Reading and writing n-D regions of an image line by line.

 The data unit of the file is a raster.  The three functions of CFITSIO which are used are modelled on it:
 write consecutive pixels from a position, read a box, write a box; their positions are 1-based.
 */
module ImageIo {

  import opened Wrappers
  import opened Geometry
  import opened Rasters
  import opened Screening
  import opened FileMem

  function PixelAt<T>(shape: Position, data: seq<T>, p: Position): (v: T)
    requires InDomain(shape, p) && |shape| >= 1 && |data| == ShapeSize(shape)
  {
    IndexBounds(shape, p, 0);
    data[Index(shape, p)]
  }

  // A region copy, and its progress line after line

  /**
   The copy to the region `region` of a raster of shape `shape`, from the same-shape region which starts
   at `sourceFront` in a raster of shape `sourceShape`, possibly of lower dimension.
   */
  datatype Copy = Copy(shape: Position, region: Region, sourceShape: Position, sourceFront: Position) {

    ghost predicate Valid() {
      && InBounds(shape, region)
      && 1 <= |sourceFront| == |sourceShape| <= |shape|
      && FlatFrom(region, |sourceFront|)
      && forall i :: 0 <= i < |sourceFront| ==>
        0 <= sourceFront[i] && sourceFront[i] + region.back[i] - region.front[i] < sourceShape[i]
    }

    /** Where the pixel at `q` comes from. */
    function Source(q: Position): (r: Position)
      requires |sourceFront| <= |q| == |region.front|
    {
      seq(|sourceFront|, i requires 0 <= i < |sourceFront| => q[i] - region.front[i] + sourceFront[i])
    }

    /** The number of the line of the region which holds `q`. */
    function LineOf(q: Position): (r: int)
      requires region.WellFormed() && |q| == |region.front| >= 1
    {
      region.LineFronts().Rank(q[0 := region.front[0]])
    }
  }

  lemma SourceInDomain(c: Copy, q: Position)
    requires c.Valid() && c.region.Contains(q)
    ensures InDomain(c.sourceShape, c.Source(q))
  {
  }

  /** The pixel at `q` after `lines` lines were copied. */
  ghost function CopiedPixel<T>(c: Copy, was: seq<T>, source: seq<T>, lines: int, q: Position): (v: T)
    requires c.Valid() && InDomain(c.shape, q)
    requires |was| == ShapeSize(c.shape) && |source| == ShapeSize(c.sourceShape)
  {
    if c.region.Contains(q) && c.LineOf(q) < lines then
      SourceInDomain(c, q);
      PixelAt(c.sourceShape, source, c.Source(q))
    else PixelAt(c.shape, was, q)
  }

  ghost predicate LinesCopied<T>(c: Copy, was: seq<T>, source: seq<T>, lines: int, now: seq<T>)
    requires c.Valid() && |source| == ShapeSize(c.sourceShape) && |was| == ShapeSize(c.shape)
  {
    && |now| == |was|
    && forall q | InDomain(c.shape, q) :: PixelAt(c.shape, now, q) == CopiedPixel(c, was, source, lines, q)
  }

  /** Every pixel of the region is that of the source, and every other pixel is unchanged. */
  ghost predicate Copied<T>(c: Copy, was: seq<T>, source: seq<T>, now: seq<T>)
    requires c.Valid() && |source| == ShapeSize(c.sourceShape) && |was| == ShapeSize(c.shape)
  {
    && |now| == |was|
    && (forall q | InDomain(c.shape, q) && c.region.Contains(q) ::
      InDomain(c.sourceShape, c.Source(q)) && PixelAt(c.shape, now, q) == PixelAt(c.sourceShape, source, c.Source(q)))
    && (forall q | InDomain(c.shape, q) && !c.region.Contains(q) ::
      PixelAt(c.shape, now, q) == PixelAt(c.shape, was, q))
  }

  lemma InLines(region: Region, q: Position)
    requires region.NonEmpty() && region.Contains(q)
    ensures region.LineFronts().NonEmpty() && region.LineFronts().Contains(q[0 := region.front[0]])
  {
  }

  lemma NothingCopied<T>(c: Copy, was: seq<T>, source: seq<T>)
    requires c.Valid() && |source| == ShapeSize(c.sourceShape) && |was| == ShapeSize(c.shape)
    ensures LinesCopied(c, was, source, 0, was)
  {
    forall q | InDomain(c.shape, q)
      ensures PixelAt(c.shape, was, q) == CopiedPixel(c, was, source, 0, q)
    {
      if c.region.Contains(q) {
        InLines(c.region, q);
        RankBounds(c.region.LineFronts(), q[0 := c.region.front[0]]);
      }
    }
  }

  lemma AllCopied<T>(c: Copy, was: seq<T>, source: seq<T>, now: seq<T>)
    requires c.Valid() && |source| == ShapeSize(c.sourceShape) && |was| == ShapeSize(c.shape)
    requires LinesCopied(c, was, source, c.region.LineFronts().Size(), now)
    ensures Copied(c, was, source, now)
  {
    forall q | InDomain(c.shape, q)
      ensures c.region.Contains(q) ==> InDomain(c.sourceShape, c.Source(q))
      ensures PixelAt(c.shape, now, q) ==
        if c.region.Contains(q) then PixelAt(c.sourceShape, source, c.Source(q)) else PixelAt(c.shape, was, q)
    {
      if c.region.Contains(q) {
        InLines(c.region, q);
        RankBounds(c.region.LineFronts(), q[0 := c.region.front[0]]);
        SourceInDomain(c, q);
      }
      assert PixelAt(c.shape, now, q) == CopiedPixel(c, was, source, c.region.LineFronts().Size(), q);
    }
  }

  /** The pixels of a line are consecutive, and no other pixel is among them. */
  lemma LineInterval(shape: Position, t: Position, n: int, q: Position)
    requires InDomain(shape, t) && InDomain(shape, q) && |shape| >= 1 && n >= 1 && t[0] + n <= shape[0]
    ensures Index(shape, t) <= Index(shape, q) < Index(shape, t) + n <==> q[1..] == t[1..] && t[0] <= q[0] < t[0] + n
    ensures q[1..] == t[1..] ==> Index(shape, q) - Index(shape, t) == q[0] - t[0]
  {
    LexIsIndexOrder(shape, q, t, 1);
    var s, i, j := shape[0], IndexFrom(shape, q, 1), IndexFrom(shape, t, 1);
    if i < j {
      LeadingDigit(q[0], t[0], s, i, j);
    } else if i > j {
      LeadingDigit(t[0] + n - 1, q[0], s, j, i);
    }
  }

  /** A line stays in the raster. */
  lemma LineFits(shape: Position, t: Position, n: int)
    requires InDomain(shape, t) && |shape| >= 1 && n >= 1 && t[0] + n <= shape[0]
    ensures 0 <= Index(shape, t) && Index(shape, t) + n <= ShapeSize(shape)
  {
    var last := t[0 := t[0] + n - 1];
    IndexBounds(shape, t, 0);
    IndexBounds(shape, last, 0);
    IndexLocal(shape, t, last, 1);
  }

  /** The pixel at `q` once the line of front `t` is copied too. */
  lemma LineCopiedPixel<T>(c: Copy, was: seq<T>, source: seq<T>, lines: int, t: Position, q: Position)
    requires c.Valid() && |source| == ShapeSize(c.sourceShape) && |was| == ShapeSize(c.shape)
    requires c.region.LineFronts().Contains(t) && c.region.LineFronts().Rank(t) == lines
    requires InDomain(c.shape, q)
    ensures InDomain(c.shape, t) && InDomain(c.sourceShape, c.Source(t))
    ensures Index(c.shape, t) <= Index(c.shape, q) < Index(c.shape, t) + c.region.Shape()[0] ==>
      var i := Index(c.sourceShape, c.Source(t)) + Index(c.shape, q) - Index(c.shape, t);
      0 <= i < |source| && CopiedPixel(c, was, source, lines + 1, q) == source[i]
    ensures !(Index(c.shape, t) <= Index(c.shape, q) < Index(c.shape, t) + c.region.Shape()[0]) ==>
      CopiedPixel(c, was, source, lines + 1, q) == CopiedPixel(c, was, source, lines, q)
  {
    var n, lineFronts := c.region.Shape()[0], c.region.LineFronts();
    assert c.region.Contains(t);
    SourceInDomain(c, t);
    LineInterval(c.shape, t, n, q);
    if q[1..] == t[1..] && t[0] <= q[0] < t[0] + n {
      SameLine(c, t, q);
      SourceInDomain(c, q);
      LineInterval(c.sourceShape, c.Source(t), n, c.Source(q));
      IndexBounds(c.sourceShape, c.Source(q), 0);
    } else if c.region.Contains(q) {
      InLines(c.region, q);
      OtherLine(c, t, q);
    }
  }

  lemma SameLine(c: Copy, t: Position, q: Position)
    requires c.Valid() && c.region.LineFronts().Contains(t) && |q| == |t|
    requires q[1..] == t[1..] && t[0] <= q[0] < t[0] + c.region.Shape()[0]
    ensures c.region.Contains(q) && c.LineOf(q) == c.region.LineFronts().Rank(t)
    ensures c.Source(q)[1..] == c.Source(t)[1..] && c.Source(q)[0] - c.Source(t)[0] == q[0] - t[0]
  {
    forall i | 1 <= i < |q| ensures q[i] == t[i] {
      assert q[1..][i - 1] == t[1..][i - 1];
    }
    assert q[0 := c.region.front[0]] == t;
    assert c.Source(q)[1..] == c.Source(t)[1..];
  }

  lemma OtherLine(c: Copy, t: Position, q: Position)
    requires c.Valid() && c.region.LineFronts().Contains(t) && c.region.Contains(q)
    requires !(q[1..] == t[1..] && t[0] <= q[0] < t[0] + c.region.Shape()[0])
    ensures c.LineOf(q) != c.region.LineFronts().Rank(t)
  {
    InLines(c.region, q);
    var u := q[0 := c.region.front[0]];
    assert q[1..] == u[1..];
    if c.LineOf(q) == c.region.LineFronts().Rank(t) {
      RankInjective(c.region.LineFronts(), u, t);
    }
  }

  /** One more line. */
  lemma LineStep<T>(c: Copy, was: seq<T>, source: seq<T>, lines: int, t: Position, now: seq<T>, next: seq<T>)
    requires c.Valid() && |source| == ShapeSize(c.sourceShape) && |was| == ShapeSize(c.shape)
    requires LinesCopied(c, was, source, lines, now) && |next| == |now|
    requires c.region.LineFronts().Contains(t) && c.region.LineFronts().Rank(t) == lines
    requires InDomain(c.shape, t) && InDomain(c.sourceShape, c.Source(t))
    requires 0 <= Index(c.sourceShape, c.Source(t)) <= |source| - c.region.Shape()[0]
    requires 0 <= Index(c.shape, t) <= |now| - c.region.Shape()[0]
    requires next == Overwritten(now, Index(c.shape, t),
      source[Index(c.sourceShape, c.Source(t))..Index(c.sourceShape, c.Source(t)) + c.region.Shape()[0]])
    ensures LinesCopied(c, was, source, lines + 1, next)
  {
    forall q | InDomain(c.shape, q)
      ensures PixelAt(c.shape, next, q) == CopiedPixel(c, was, source, lines + 1, q)
    {
      LineCopiedPixel(c, was, source, lines, t, q);
      IndexBounds(c.shape, q, 0);
      assert PixelAt(c.shape, now, q) == CopiedPixel(c, was, source, lines, q);
    }
  }

  // CFITSIO

  /** Write consecutive pixels. */
  method WritePixels<T>(file: Raster<T>, first: Position, values: seq<T>)
    requires file.Valid() && InDomain(file.shape, Shift(first, -1))
    requires 0 <= Index(file.shape, Shift(first, -1)) <= file.data.Length - |values|
    modifies file.data
    ensures file.data[..] == Overwritten(old(file.data[..]), Index(file.shape, Shift(first, -1)), values)
  {
    Store(file.data, Index(file.shape, Shift(first, -1)), values);
  }

  method Store<T>(data: array<T>, at: nat, values: seq<T>)
    requires at + |values| <= data.Length
    modifies data
    ensures data[..] == Overwritten(old(data[..]), at, values)
  {
    for k := 0 to |values|
      invariant data[..] == Overwritten(old(data[..]), at, values[..k])
    {
      assert values[..k + 1] == values[..k] + [values[k]];
      data[at + k] := values[k];
    }
    assert values[..|values|] == values;
  }

  /** `values` are the pixels of a box, first axis fastest. */
  ghost predicate AreBoxPixels<T>(shape: Position, data: seq<T>, box: Region, values: seq<T>)
    requires InBounds(shape, box) && |data| == ShapeSize(shape)
  {
    && |values| == box.Size()
    && forall p | box.Contains(p) :: 0 <= box.Rank(p) < |values| && values[box.Rank(p)] == PixelAt(shape, data, p)
  }

  method CollectBox<T>(file: Raster<T>, box: Region) returns (values: seq<T>)
    requires file.Valid() && InBounds(file.shape, box)
    ensures AreBoxPixels(file.shape, file.data[..], box, values)
  {
    RankBounds(box, box.front);
    values := [];
    for r := 0 to box.Size()
      invariant |values| == r
      invariant forall p | box.Contains(p) && 0 <= box.Rank(p) < r ::
        values[box.Rank(p)] == PixelAt(file.shape, file.data[..], p)
    {
      var p := box.Unrank(r);
      UnrankIsInverse(box, r);
      var v := file.At(p);
      IndexBounds(file.shape, p, 0);
      forall q | box.Contains(q) && box.Rank(q) == r ensures q == p {
        RankInjective(box, p, q);
      }
      values := values + [v];
    }
    forall p | box.Contains(p) ensures 0 <= box.Rank(p) < |values| {
      RankBounds(box, p);
    }
  }

  /** Read a box to the elements of the destination from `offset` on. */
  method ReadSubset<T>(file: Raster<T>, front: Position, back: Position, to: Raster<T>, offset: nat)
    returns (ghost values: seq<T>)
    requires file.Valid() && to.Valid() && file.data != to.data
    requires InBounds(file.shape, Region(Shift(front, -1), Shift(back, -1)))
    requires offset + Region(Shift(front, -1), Shift(back, -1)).Size() <= to.data.Length
    modifies to.data
    ensures AreBoxPixels(file.shape, file.data[..], Region(Shift(front, -1), Shift(back, -1)), values)
    ensures to.data[..] == Overwritten(old(to.data[..]), offset, values)
  {
    var pixels := CollectBox(file, Region(Shift(front, -1), Shift(back, -1)));
    Store(to.data, offset, pixels);
    values := pixels;
  }

  /**
   Coordinate by coordinate: the pixel as far from `front` as `s` is from `sourceFront` is that of `s`, for each `s` up
   to `sourceBack`; along the axes that the source does not have, this is at `front`.  Every other pixel is unchanged.
   */
  ghost predicate IsBlit<T>(shape: Position, front: Position, was: seq<T>, now: seq<T>, sourceShape: Position,
                            sourceFront: Position, sourceBack: Position, source: seq<T>)
    requires 1 <= |sourceShape| == |sourceFront| == |sourceBack| <= |shape| == |front|
    requires |was| == |now| == ShapeSize(shape) && |source| == ShapeSize(sourceShape)
  {
    && (forall q, s | InDomain(shape, q) && InDomain(sourceShape, s)
        && (forall i :: 0 <= i < |s| ==> sourceFront[i] <= s[i] <= sourceBack[i])
        && (forall i :: 0 <= i < |q| ==> q[i] == front[i] + if i < |s| then s[i] - sourceFront[i] else 0) ::
      PixelAt(shape, now, q) == PixelAt(sourceShape, source, s))
    && (forall q, i | InDomain(shape, q) && 0 <= i < |q|
        && !(front[i] <= q[i] <= front[i] + if i < |sourceFront| then sourceBack[i] - sourceFront[i] else 0) ::
      PixelAt(shape, now, q) == PixelAt(shape, was, q))
  }

  lemma CopiedIsBlit<T>(c: Copy, sourceBack: Position, was: seq<T>, source: seq<T>, now: seq<T>)
    requires c.Valid() && |source| == ShapeSize(c.sourceShape) && |was| == ShapeSize(c.shape)
    requires Copied(c, was, source, now) && |sourceBack| == |c.sourceFront|
    requires forall i :: 0 <= i < |sourceBack| ==>
      sourceBack[i] - c.sourceFront[i] == c.region.back[i] - c.region.front[i]
    ensures IsBlit(c.shape, c.region.front, was, now, c.sourceShape, c.sourceFront, sourceBack, source)
  {
    var front := c.region.front;
    forall q, s | InDomain(c.shape, q) && InDomain(c.sourceShape, s)
      && (forall i :: 0 <= i < |s| ==> c.sourceFront[i] <= s[i] <= sourceBack[i])
      && (forall i :: 0 <= i < |q| ==> q[i] == front[i] + if i < |s| then s[i] - c.sourceFront[i] else 0)
      ensures PixelAt(c.shape, now, q) == PixelAt(c.sourceShape, source, s)
    {
      assert c.region.Contains(q);
      assert c.Source(q) == s;
    }
    forall q, i | InDomain(c.shape, q) && 0 <= i < |q|
      && !(front[i] <= q[i] <= front[i] + if i < |c.sourceFront| then sourceBack[i] - c.sourceFront[i] else 0)
      ensures PixelAt(c.shape, now, q) == PixelAt(c.shape, was, q)
    {
      assert !c.region.Contains(q);
    }
  }

  // Write

  /** The region of the file where a raster of shape `shape`, possibly of lower dimension, goes. */
  function FileRegion(front: Position, shape: Position): (r: Region)
    requires |shape| <= |front|
  {
    FromShape(front, Extend(shape, Constant(|front|, 1)))
  }

  function WriteCopy(fileShape: Position, front: Position, parentShape: Position, region: Region): (c: Copy)
    requires region.WellFormed() && |region.front| <= |front|
  {
    Copy(fileShape, FileRegion(front, region.Shape()), parentShape, region.front)
  }

  lemma WriteCopyValid(fileShape: Position, front: Position, parentShape: Position, region: Region)
    requires InBounds(parentShape, region) && |region.front| <= |front|
    requires InBounds(fileShape, FileRegion(front, region.Shape()))
    ensures WriteCopy(fileShape, front, parentShape, region).Valid()
  {
  }

  lemma {:induction false} IndexPadded(shape: Position, d: Position, m: nat, k: nat)
    requires |shape| == |d| && k <= m <= |d| && forall i :: m <= i < |d| ==> d[i] == 0
    ensures IndexFrom(shape, d, k) == IndexFrom(shape[..m], d[..m], k)
    decreases m - k
  {
    if k == m {
      ZeroIndex(shape, d, m);
    } else {
      IndexPadded(shape, d, m, k + 1);
    }
  }

  /** The line written at each step, and its number. */
  lemma TargetLine(fileShape: Position, front: Position, parentShape: Position, region: Region, source: Position)
    requires InBounds(parentShape, region) && |region.front| <= |front|
    requires InBounds(fileShape, FileRegion(front, region.Shape()))
    requires Domain(region.Shape()).LineFronts().NonEmpty() && Domain(region.Shape()).LineFronts().Contains(source)
    ensures var c, t := WriteCopy(fileShape, front, parentShape, region),
                        Extend(Plus(source, front[..|source|]), front);
      && c.region.LineFronts().Contains(t)
      && c.region.LineFronts().Rank(t) == Domain(region.Shape()).LineFronts().Rank(source)
      && c.Source(t) == Plus(source, region.front)
      && c.region.Shape()[0] == region.Shape()[0]
  {
    var c, m := WriteCopy(fileShape, front, parentShape, region), |source|;
    var t := Extend(Plus(source, front[..m]), front);
    var lines, locus := c.region.LineFronts(), Domain(region.Shape()).LineFronts();
    assert c.Source(t) == Plus(source, region.front);
    var d := Minus(t, front);
    assert d[..m] == Minus(source, locus.front);
    assert lines.Shape()[..m] == locus.Shape();
    IndexPadded(lines.Shape(), d, m, 0);
  }

  lemma LineCount(front: Position, region: Region)
    requires region.NonEmpty() && |region.front| <= |front|
    ensures FileRegion(front, region.Shape()).LineFronts().Size() == Domain(region.Shape()).LineFronts().Size()
  {
    var m, s := |region.front|, FileRegion(front, region.Shape()).LineFronts().Shape();
    assert s[..m] == Domain(region.Shape()).LineFronts().Shape();
    FlatSize(s, m, 0);
  }

  /** Write the line of the subraster which starts at `source`. */
  method WriteLine<T>(
    file: Raster<T>, front: Position, parent: Raster<T>, region: Region, source: Position, ghost was: seq<T>)
    requires file.Valid() && parent.Valid() && file.data != parent.data && |was| == file.data.Length
    requires InBounds(parent.shape, region) && |region.front| <= |front|
    requires InBounds(file.shape, FileRegion(front, region.Shape()))
    requires Domain(region.Shape()).LineFronts().NonEmpty() && Domain(region.Shape()).LineFronts().Contains(source)
    requires WriteCopy(file.shape, front, parent.shape, region).Valid()
    requires LinesCopied(WriteCopy(file.shape, front, parent.shape, region), was, parent.data[..],
      Domain(region.Shape()).LineFronts().Rank(source), file.data[..])
    modifies file.data
    ensures LinesCopied(WriteCopy(file.shape, front, parent.shape, region), was, parent.data[..],
      Domain(region.Shape()).LineFronts().Rank(source) + 1, file.data[..])
  {
    ghost var c := WriteCopy(file.shape, front, parent.shape, region);
    ghost var now := file.data[..];
    TargetLine(file.shape, front, parent.shape, region, source);
    var nelem, delta := region.Shape()[0], front[..|source|];
    var target := Shift(Extend(Plus(source, delta), front), 1);
    ghost var t := Extend(Plus(source, delta), front);
    assert Shift(target, -1) == t;
    SourceInDomain(c, t);
    LineFits(file.shape, t, nelem);
    LineFits(parent.shape, Plus(source, region.front), nelem);
    var b := Index(parent.shape, Plus(source, region.front));
    var line := parent.data[b..b + nelem];
    WritePixels(file, target, line);
    LineStep(c, was, parent.data[..], Domain(region.Shape()).LineFronts().Rank(source), t, now, file.data[..]);
  }

  /** The loop over the lines. */
  method WriteLines<T>(file: Raster<T>, front: Position, parent: Raster<T>, region: Region)
    requires file.Valid() && parent.Valid() && file.data != parent.data
    requires InBounds(parent.shape, region) && |region.front| <= |front|
    requires InBounds(file.shape, FileRegion(front, region.Shape()))
    modifies file.data
    ensures WriteCopy(file.shape, front, parent.shape, region).Valid()
    ensures Copied(WriteCopy(file.shape, front, parent.shape, region), old(file.data[..]), parent.data[..],
                   file.data[..])
  {
    ghost var c, was := WriteCopy(file.shape, front, parent.shape, region), file.data[..];
    WriteCopyValid(file.shape, front, parent.shape, region);
    NothingCopied(c, was, parent.data[..]);
    var locus := Domain(region.Shape()).LineFronts();
    var it := new PositionIterator(locus, []);
    RankBounds(locus, locus.front);
    while it.current != PastBack(locus)
      invariant it.Valid() && it.region == locus && fresh(it) && it.Steps() <= locus.Size()
      invariant LinesCopied(c, was, parent.data[..], it.Steps(), file.data[..])
      decreases locus.Size() - it.Steps()
    {
      RankBounds(locus, it.current);
      WriteLine(file, front, parent, region, it.current, was);
      it.Next();
    }
    LineCount(front, region);
    AllCopied(c, was, parent.data[..], file.data[..]);
  }

  /** Write the region `region` of a raster at a position of the file, line by line. */
  method WriteSubraster<T>(file: Raster<T>, front: Position, parent: Raster<T>, region: Region)
    requires file.Valid() && parent.Valid() && file.data != parent.data
    requires InBounds(parent.shape, region) && |region.front| <= |front|
    requires InBounds(file.shape, FileRegion(front, region.Shape()))
    modifies file.data
    ensures WriteCopy(file.shape, front, parent.shape, region).Valid()
    ensures Copied(WriteCopy(file.shape, front, parent.shape, region), old(file.data[..]), parent.data[..],
                   file.data[..])
    ensures IsBlit(file.shape, front, old(file.data[..]), file.data[..], parent.shape, region.front, region.back,
                   parent.data[..])
  {
    ghost var was := file.data[..];
    WriteLines(file, front, parent, region);
    CopiedIsBlit(WriteCopy(file.shape, front, parent.shape, region), region.back, was, parent.data[..], file.data[..]);
  }

  // Read

  function ReadCopy(toShape: Position, toFront: Position, fileShape: Position, region: Region): (c: Copy)
    requires region.WellFormed() && |toFront| == |region.front|
  {
    Copy(toShape, FromShape(toFront, region.Shape()), fileShape, region.front)
  }

  lemma ReadCopyValid(toShape: Position, toFront: Position, fileShape: Position, region: Region)
    requires InBounds(fileShape, region) && |toFront| == |region.front|
    requires InBounds(toShape, FromShape(toFront, region.Shape()))
    ensures ReadCopy(toShape, toFront, fileShape, region).Valid()
  {
  }

  /** The box of one line of `n` pixels. */
  function LineBox(front: Position, n: int): (r: Region)
    requires |front| >= 1
  {
    Region(front, front[0 := front[0] + n - 1])
  }

  lemma LineBoxRank(front: Position, n: int, j: int)
    requires |front| >= 1 && 0 <= j < n
    ensures LineBox(front, n).NonEmpty() && LineBox(front, n).Contains(front[0 := front[0] + j])
    ensures LineBox(front, n).Size() == n && LineBox(front, n).Rank(front[0 := front[0] + j]) == j
  {
    var box, p := LineBox(front, n), front[0 := front[0] + j];
    OnesSize(box.Shape(), 1);
    ZeroIndex(box.Shape(), Minus(p, front), 1);
  }

  /** A line box holds consecutive pixels. */
  lemma LinePixels<T>(shape: Position, data: seq<T>, front: Position, n: int, values: seq<T>)
    requires |shape| >= 1 && |data| == ShapeSize(shape) && InDomain(shape, front) && n >= 1 && front[0] + n <= shape[0]
    requires InBounds(shape, LineBox(front, n)) && AreBoxPixels(shape, data, LineBox(front, n), values)
    ensures 0 <= Index(shape, front) <= |data| - n
    ensures values == data[Index(shape, front)..Index(shape, front) + n]
  {
    LineFits(shape, front, n);
    LineBoxRank(front, n, 0);
    var b := Index(shape, front);
    forall j | 0 <= j < n ensures values[j] == data[b..b + n][j] {
      var p := front[0 := front[0] + j];
      LineBoxRank(front, n, j);
      assert values[j] == PixelAt(shape, data, p);
      assert p[1..] == front[1..];
      LineInterval(shape, front, n, p);
    }
  }

  /** The fronts of the lines of a region, 1-based. */
  function SourceLines(region: Region): (r: Region)
    requires region.WellFormed() && |region.front| >= 1
  {
    Region(Shift(region.front, 1), Shift(region.back, 1)).LineFronts()
  }

  /** What one position of the screener and its two followers mean. */
  lemma ScreenedLine(toShape: Position, toFront: Position, fileShape: Position, region: Region,
                     front: Position, back: Position, to: Position)
    requires InBounds(fileShape, region) && |toFront| == |region.front|
    requires InBounds(toShape, FromShape(toFront, region.Shape()))
    requires SourceLines(region).NonEmpty() && SourceLines(region).Contains(front)
    requires Follows(SourceLines(region), front, LineBox(Shift(region.front, 1), region.Shape()[0]).back, back)
    requires Follows(SourceLines(region), front, toFront, to)
    ensures var c, n := ReadCopy(toShape, toFront, fileShape, region), region.Shape()[0];
      && Region(Shift(front, -1), Shift(back, -1)) == LineBox(Shift(front, -1), n)
      && InBounds(fileShape, LineBox(Shift(front, -1), n))
      && c.region.LineFronts().Contains(to)
      && c.region.LineFronts().Rank(to) == SourceLines(region).Rank(front)
      && c.Source(to) == Shift(front, -1)
      && c.region.Shape()[0] == n
      && InDomain(toShape, to) && to[0] + n <= toShape[0]
  {
    var c, n := ReadCopy(toShape, toFront, fileShape, region), region.Shape()[0];
    assert Shift(back, -1) == LineBox(Shift(front, -1), n).back;
    assert c.Source(to) == Shift(front, -1);
    assert Minus(to, toFront) == Minus(front, SourceLines(region).front);
    assert c.region.LineFronts().Shape() == SourceLines(region).Shape();
  }

  /** The screener and its two followers are at the line number `i`. */
  ghost predicate AtLine(region: Region, toFront: Position, front: Position, back: Position, to: Position, i: int)
    requires region.NonEmpty()
  {
    && SourceLines(region).NonEmpty()
    && SourceLines(region).Contains(front)
    && SourceLines(region).Rank(front) == i
    && Follows(SourceLines(region), front, LineBox(Shift(region.front, 1), region.Shape()[0]).back, back)
    && Follows(SourceLines(region), front, toFront, to)
  }

  lemma FollowersAtLine(region: Region, front: Position, fronts: seq<Position>, followers: seq<Position>)
    requires region.NonEmpty() && SourceLines(region).NonEmpty() && SourceLines(region).Contains(front)
    requires Following(SourceLines(region), front, fronts, followers) && |fronts| == 2
    requires fronts[0] == LineBox(Shift(region.front, 1), region.Shape()[0]).back
    ensures AtLine(region, fronts[1], front, followers[0], followers[1], SourceLines(region).Rank(front))
  {
    assert Follows(SourceLines(region), front, fronts[0], followers[0]);
    assert Follows(SourceLines(region), front, fronts[1], followers[1]);
  }

  /** Read the line at the current positions of the screener. */
  method ReadLine<T>(file: Raster<T>, region: Region, to: Raster<T>, toFront: Position,
                     sourceFront: Position, sourceBack: Position, toPosition: Position,
                     ghost was: seq<T>, ghost lines: int)
    requires file.Valid() && to.Valid() && file.data != to.data && |was| == to.data.Length
    requires InBounds(file.shape, region) && |toFront| == |region.front|
    requires InBounds(to.shape, FromShape(toFront, region.Shape()))
    requires AtLine(region, toFront, sourceFront, sourceBack, toPosition, lines)
    requires ReadCopy(to.shape, toFront, file.shape, region).Valid()
    requires LinesCopied(ReadCopy(to.shape, toFront, file.shape, region), was, file.data[..], lines, to.data[..])
    modifies to.data
    ensures LinesCopied(ReadCopy(to.shape, toFront, file.shape, region), was, file.data[..], lines + 1, to.data[..])
  {
    ghost var c := ReadCopy(to.shape, toFront, file.shape, region);
    ghost var now := to.data[..];
    ghost var n, f := region.Shape()[0], Shift(sourceFront, -1);
    ScreenedLine(to.shape, toFront, file.shape, region, sourceFront, sourceBack, toPosition);
    LineBoxRank(f, n, 0);
    LineFits(to.shape, toPosition, n);
    ghost var values := ReadSubset(file, sourceFront, sourceBack, to, Index(to.shape, toPosition));
    LinePixels(file.shape, file.data[..], f, n, values);
    LineStep(c, was, file.data[..], lines, toPosition, now, to.data[..]);
  }

  /** The loop over the lines. */
  method ReadLines<T>(file: Raster<T>, region: Region, to: Raster<T>, toFront: Position)
    returns (ghost boxes: seq<Region>)
    requires file.Valid() && to.Valid() && file.data != to.data
    requires InBounds(file.shape, region) && |toFront| == |region.front|
    requires InBounds(to.shape, FromShape(toFront, region.Shape()))
    modifies to.data
    ensures ReadCopy(to.shape, toFront, file.shape, region).Valid()
    ensures Copied(ReadCopy(to.shape, toFront, file.shape, region), old(to.data[..]), file.data[..], to.data[..])
    ensures |boxes| == region.LineFronts().Size() && AreLines(region, boxes)
  {
    ghost var c, was := ReadCopy(to.shape, toFront, file.shape, region), to.data[..];
    ReadCopyValid(to.shape, toFront, file.shape, region);
    NothingCopied(c, was, file.data[..]);
    var sourceRegion := SourceLines(region);
    var count := sourceRegion.Size();
    var sourceFront := sourceRegion.front;
    var sourceBack := sourceFront[0 := sourceFront[0] + region.Shape()[0] - 1];
    var toPosition := toFront;
    var screener := new RegionScreener(sourceRegion, [sourceBack, toFront]);
    FollowersAtLine(region, screener.current, screener.fronts, screener.followers);
    RankOfCorners(sourceRegion);
    RankBounds(sourceRegion, sourceFront);
    SourceLinesShape(c, region);
    boxes := [];
    for i := 0 to count
      invariant screener.Valid() && fresh(screener)
      invariant screener.region == SourceLines(region) && sourceFront == screener.current
      invariant screener.fronts == [LineBox(Shift(region.front, 1), region.Shape()[0]).back, toFront]
      invariant AtLine(region, toFront, sourceFront, sourceBack, toPosition, if i == count then 0 else i)
      invariant LinesCopied(c, was, file.data[..], i, to.data[..])
      invariant |boxes| == i && AreLines(region, boxes)
    {
      ReadLine(file, region, to, toFront, sourceFront, sourceBack, toPosition, was, i);
      NextLine(region, boxes, toFront, sourceFront, sourceBack, toPosition);
      boxes := boxes + [Region(sourceFront, sourceBack)];
      screener.Next();
      FollowersAtLine(region, screener.current, screener.fronts, screener.followers);
      sourceFront := screener.current;
      sourceBack := screener.followers[0];
      toPosition := screener.followers[1];
    }
    AllCopied(c, was, file.data[..], to.data[..]);
  }

  /**
   Read a region of the file to the region of the same shape which starts at `toFront` in a raster.
   `boxes` are the boxes asked to CFITSIO, 1-based.
   */
  method ReadRegionTo<T>(file: Raster<T>, region: Region, to: Raster<T>, toFront: Position)
    returns (ghost boxes: seq<Region>)
    requires file.Valid() && to.Valid() && file.data != to.data
    requires InBounds(file.shape, region) && |toFront| == |region.front|
    requires InBounds(to.shape, FromShape(toFront, region.Shape()))
    modifies to.data
    ensures ReadCopy(to.shape, toFront, file.shape, region).Valid()
    ensures Copied(ReadCopy(to.shape, toFront, file.shape, region), old(to.data[..]), file.data[..], to.data[..])
    ensures IsBlit(to.shape, toFront, old(to.data[..]), to.data[..], file.shape, region.front, region.back,
                   file.data[..])
    ensures |boxes| == region.LineFronts().Size() && AreLines(region, boxes)
  {
    ghost var was := to.data[..];
    boxes := ReadLines(file, region, to, toFront);
    CopiedIsBlit(ReadCopy(to.shape, toFront, file.shape, region), region.back, was, file.data[..], to.data[..]);
  }

  lemma SourceLinesShape(c: Copy, region: Region)
    requires c.Valid() && region.NonEmpty() && |region.front| == |c.region.front|
    requires c.region == FromShape(c.region.front, region.Shape())
    ensures c.region.LineFronts().Size() == SourceLines(region).Size() == region.LineFronts().Size()
  {
    assert c.region.LineFronts().Shape() == SourceLines(region).Shape() == region.LineFronts().Shape();
  }

  /** The boxes are the first lines of the region, in order. */
  ghost predicate AreLines(region: Region, boxes: seq<Region>)
    requires region.NonEmpty()
  {
    forall i :: 0 <= i < |boxes| ==>
      && region.LineFronts().NonEmpty()
      && boxes[i] == LineBox(Shift(region.LineFronts().Unrank(i), 1), region.Shape()[0])
  }

  lemma NextLine(
    region: Region, boxes: seq<Region>, toFront: Position, front: Position, back: Position, to: Position)
    requires region.NonEmpty() && AreLines(region, boxes) && AtLine(region, toFront, front, back, to, |boxes|)
    ensures AreLines(region, boxes + [Region(front, back)])
  {
    var p, lines := Shift(front, -1), region.LineFronts();
    assert lines.NonEmpty() && lines.Contains(p);
    assert Minus(p, region.front) == Minus(front, SourceLines(region).front);
    assert lines.Shape() == SourceLines(region).Shape();
    UnrankOfRank(lines, p);
    assert Shift(p, 1) == front;
    assert back == LineBox(front, region.Shape()[0]).back;
  }

  // Write a region, as a slice if it is contiguous

  /** Write a box, from its pixels first axis fastest. */
  method WriteSubset<T>(file: Raster<T>, front: Position, back: Position, values: seq<T>)
    requires file.Valid() && InBounds(file.shape, Region(Shift(front, -1), Shift(back, -1)))
    requires |values| == Region(Shift(front, -1), Shift(back, -1)).Size()
    modifies file.data
    ensures BoxWritten(file.shape, Region(Shift(front, -1), Shift(back, -1)), old(file.data[..]), values, |values|,
      file.data[..])
  {
    var box := Region(Shift(front, -1), Shift(back, -1));
    ghost var was := file.data[..];
    for r := 0 to |values|
      invariant BoxWritten(file.shape, box, was, values, r, file.data[..])
    {
      ghost var now := file.data[..];
      UnrankIsInverse(box, r);
      IndexBounds(file.shape, box.Unrank(r), 0);
      var i := Index(file.shape, box.Unrank(r));
      file.data[i] := values[r];
      assert file.data[..] == now[i := values[r]];
      BoxStep(file.shape, box, was, values, r, now);
    }
  }

  /** The `r` first pixels of the box are written. */
  ghost predicate BoxWritten<T>(
    shape: Position, box: Region, was: seq<T>, values: seq<T>, r: int, now: seq<T>)
    requires InBounds(shape, box) && |was| == ShapeSize(shape) && r <= |values|
  {
    && |now| == |was|
    && forall q | InDomain(shape, q) ::
      if box.Contains(q) && 0 <= box.Rank(q) < r then PixelAt(shape, now, q) == values[box.Rank(q)]
      else PixelAt(shape, now, q) == PixelAt(shape, was, q)
  }

  lemma BoxStep<T>(shape: Position, box: Region, was: seq<T>, values: seq<T>, r: int, now: seq<T>)
    requires InBounds(shape, box) && |was| == ShapeSize(shape) && |values| == box.Size() && 0 <= r < |values|
    requires BoxWritten(shape, box, was, values, r, now)
    requires box.Contains(box.Unrank(r)) && box.Rank(box.Unrank(r)) == r
    requires 0 <= Index(shape, box.Unrank(r)) < |now|
    ensures BoxWritten(shape, box, was, values, r + 1, now[Index(shape, box.Unrank(r)) := values[r]])
  {
    var p := box.Unrank(r);
    var next := now[Index(shape, p) := values[r]];
    forall q | InDomain(shape, q)
      ensures if box.Contains(q) && 0 <= box.Rank(q) < r + 1 then PixelAt(shape, next, q) == values[box.Rank(q)]
              else PixelAt(shape, next, q) == PixelAt(shape, was, q)
    {
      SameRankSameIndex(shape, box, p, q);
      IndexBounds(shape, q, 0);
    }
  }

  lemma SameRankSameIndex(shape: Position, box: Region, p: Position, q: Position)
    requires InBounds(shape, box) && box.Contains(p) && InDomain(shape, q)
    ensures Index(shape, q) == Index(shape, p) <==> box.Contains(q) && box.Rank(q) == box.Rank(p)
  {
    if Index(shape, q) == Index(shape, p) {
      IndexInjective(shape, q, p);
    }
    if box.Contains(q) && box.Rank(q) == box.Rank(p) {
      RankInjective(box, q, p);
    }
  }

  /** The box which is asked for a raster written at `front`: the shape is padded with `front` itself. */
  function SliceBox(front: Position, shape: Position): (r: Region)
    requires |shape| <= |front|
  {
    Region(front, Shift(Plus(front, Extend(shape, front)), -1))
  }

  /** It is the right box exactly if `front` is 1 along each of the axes that the raster does not have. */
  lemma SliceBoxCondition(front: Position, shape: Position)
    requires |shape| <= |front|
    ensures SliceBox(front, shape) == FileRegion(front, shape) <==>
      forall i :: |shape| <= i < |front| ==> front[i] == 1
  {
    var s, f := SliceBox(front, shape), FileRegion(front, shape);
    forall i | 0 <= i < |front|
      ensures s.back[i] == f.back[i] <==> i < |shape| || front[i] == 1
    {
    }
    if forall i :: |shape| <= i < |front| ==> front[i] == 1 {
      assert s.back == f.back;
    }
  }

  /** The lengths of the box along the axes that the raster does not have. */
  lemma {:induction false} PaddingSize(lengths: Position, k: nat)
    requires k <= |lengths| && forall i :: k <= i < |lengths| ==> lengths[i] >= 0
    ensures SizeFrom(lengths, k) >= 0
    ensures SizeFrom(lengths, k) == 0 <==> exists i :: k <= i < |lengths| && lengths[i] == 0
    ensures SizeFrom(lengths, k) == 1 <==> forall i :: k <= i < |lengths| ==> lengths[i] == 1
    decreases |lengths| - k
  {
    if k < |lengths| {
      PaddingSize(lengths, k + 1);
      ProductOfNaturals(lengths[k], SizeFrom(lengths, k + 1));
    }
  }

  lemma ProductOfNaturals(a: int, b: int)
    requires a >= 0 && b >= 0
    ensures a * b >= 0
    ensures a * b == 0 <==> a == 0 || b == 0
    ensures a * b == 1 <==> a == 1 && b == 1
  {
    if a >= 1 && b >= 1 {
      MulPositive(a, b);
    }
  }

  lemma {:induction false} SizeOfExtended(shape: Position, padding: Position, k: nat)
    requires k <= |shape| <= |padding|
    ensures SizeFrom(Extend(shape, padding), k) == SizeFrom(shape, k) * SizeFrom(Extend(shape, padding), |shape|)
    decreases |shape| - k
  {
    if k < |shape| {
      SizeOfExtended(shape, padding, k + 1);
      var a, b, c := shape[k], SizeFrom(shape, k + 1), SizeFrom(Extend(shape, padding), |shape|);
      assert a * (b * c) == (a * b) * c;
    }
  }

  /**
   The number of pixels of the box is that of the raster exactly if it is the right box.  There is none if the
   front is 0 along any of the other axes, and else there are more of them than the raster has to give.
   */
  lemma SliceBoxPixels(front: Position, shape: Position)
    requires 1 <= |shape| <= |front| && Positive(shape) && forall i :: 0 <= i < |front| ==> front[i] >= 0
    ensures SliceBox(front, shape).Size() == ShapeSize(shape) <==> SliceBox(front, shape) == FileRegion(front, shape)
    ensures SliceBox(front, shape).Size() == 0 <==> exists i :: |shape| <= i < |front| && front[i] == 0
    ensures SliceBox(front, shape).Size() == 0 || SliceBox(front, shape).Size() >= ShapeSize(shape)
  {
    var e, m := Extend(shape, front), |shape|;
    assert SliceBox(front, shape).Shape() == e;
    assert forall i :: m <= i < |front| ==> e[i] == front[i];
    SizeOfExtended(shape, front, 0);
    PaddingSize(e, m);
    SizeFromPositive(shape, 0);
    SliceBoxCondition(front, shape);
    Multiples(ShapeSize(shape), SizeFrom(e, m));
  }

  lemma Multiples(a: int, b: int)
    requires a >= 1 && b >= 0
    ensures a * b == a <==> b == 1
    ensures a * b == 0 <==> b == 0
    ensures b >= 1 ==> a * b >= a
  {
    if b >= 2 {
      assert a * b == a + a * (b - 1);
      MulPositive(a, b - 1);
    }
  }

  /** A plane written at the origin of a 3-D image: the box stops before the first plane. */
  lemma SliceBoxCounterexample()
    ensures SliceBox([0, 0, 0], [4, 4]) == Region([0, 0, 0], [3, 3, -1])
    ensures FileRegion([0, 0, 0], [4, 4]) == Region([0, 0, 0], [3, 3, 0])
  {
    var front := [0, 0, 0];
    assert front[2..] == [0];
    assert SliceBox(front, [4, 4]).back == [3, 3, -1];
    assert FileRegion(front, [4, 4]).back == [3, 3, 0];
  }

  /** Write a whole raster at a position of the file. */
  method WriteSlice<T>(file: Raster<T>, front: Position, shape: Position, values: seq<T>)
    requires file.Valid() && |shape| <= |front| && InBounds(file.shape, SliceBox(front, shape))
    requires |values| == SliceBox(front, shape).Size()
    modifies file.data
    ensures BoxWritten(file.shape, SliceBox(front, shape), old(file.data[..]), values, |values|, file.data[..])
  {
    var first := Shift(front, 1);
    var back := Plus(front, Extend(shape, front));
    assert Region(Shift(first, -1), Shift(back, -1)) == SliceBox(front, shape);
    WriteSubset(file, first, back, values);
  }

  /** Writing the flat view of a contiguous region is copying the region. */
  lemma SliceCopies<T>(
    c: Copy, region: Region, m: nat, was: seq<T>, source: seq<T>, offset: int, values: seq<T>, now: seq<T>)
    requires c.Valid() && |source| == ShapeSize(c.sourceShape) && |was| == ShapeSize(c.shape)
    requires |c.sourceShape| == |c.shape| && InBounds(c.sourceShape, region)
    requires c.sourceFront == region.front && c.region == FromShape(c.region.front, region.Shape())
    requires 1 <= m <= |c.shape| && Contiguous(c.sourceShape, region, m)
    requires offset == Index(c.sourceShape, region.front)
    requires 0 <= offset <= |source| - region.Size() && 0 <= region.Size()
    requires values == source[offset..offset + region.Size()] && |values| == c.region.Size()
    requires BoxWritten(c.shape, c.region, was, values, |values|, now)
    ensures Copied(c, was, source, now)
  {
    SliceIsView(c.sourceShape, region, m);
    assert c.region.Shape() == region.Shape();
    forall q | InDomain(c.shape, q) && c.region.Contains(q)
      ensures InDomain(c.sourceShape, c.Source(q))
      ensures PixelAt(c.shape, now, q) == PixelAt(c.sourceShape, source, c.Source(q))
    {
      SourceInDomain(c, q);
      RankBounds(c.region, q);
      SlicePixel(c, region, m, q);
    }
  }

  lemma SlicePixel(c: Copy, region: Region, m: nat, q: Position)
    requires c.Valid() && |c.sourceShape| == |c.shape| && InBounds(c.sourceShape, region)
    requires c.sourceFront == region.front && c.region == FromShape(c.region.front, region.Shape())
    requires c.region.Shape() == region.Shape() && 1 <= m <= |c.shape|
    requires FlatFrom(region, m) && IsAligned(c.sourceShape, region, m) && c.region.Contains(q)
    ensures Index(c.sourceShape, c.Source(q)) == Index(c.sourceShape, region.front) + c.region.Rank(q)
  {
    var d := Minus(q, c.region.front);
    assert InDomain(region.Shape()[..m], d[..m]);
    assert Padded(region.front, d[..m]) == c.Source(q);
    IndexPadded(region.Shape(), d, m, 0);
  }

  /** Write a contiguous region of a raster at a position of the file, through its flat view. */
  method WriteContiguous<T>(file: Raster<T>, front: Position, raster: Raster<T>, region: Region)
    requires file.Valid() && raster.Valid() && file.data != raster.data
    requires |region.front| == |front| >= 2 && InBounds(raster.shape, region)
    requires InBounds(file.shape, FileRegion(front, region.Shape())) && Contiguous(raster.shape, region, 2)
    requires forall i :: 2 <= i < |front| ==> front[i] == 1
    modifies file.data
    ensures WriteCopy(file.shape, front, raster.shape, region).Valid()
    ensures Copied(WriteCopy(file.shape, front, raster.shape, region), old(file.data[..]), raster.data[..],
                   file.data[..])
  {
    ghost var c, was := WriteCopy(file.shape, front, raster.shape, region), file.data[..];
    WriteCopyValid(file.shape, front, raster.shape, region);
    var slice := MakeSlice(raster, region, 2);
    SliceSize(region, 2);
    RankBounds(region, region.front);
    SliceBoxOfRegion(front, region);
    var values := raster.data[slice.offset..slice.offset + ShapeSize(slice.shape)];
    WriteSlice(file, front, slice.shape, values);
    SliceCopies(c, region, 2, was, raster.data[..], slice.offset, values, file.data[..]);
  }

  lemma SliceBoxOfRegion(front: Position, region: Region)
    requires region.NonEmpty() && |region.front| == |front| >= 2 && FlatFrom(region, 2)
    requires forall i :: 2 <= i < |front| ==> front[i] == 1
    ensures SliceBox(front, region.Shape()[..2]) == FileRegion(front, region.Shape())
    ensures FileRegion(front, region.Shape()) == FromShape(front, region.Shape())
    ensures FileRegion(front, region.Shape()).Size() == region.Size()
  {
    SliceBoxCondition(front, region.Shape()[..2]);
    assert FileRegion(front, region.Shape()[..2]).back == FileRegion(front, region.Shape()).back;
    assert Extend(region.Shape(), Constant(|front|, 1)) == region.Shape();
    assert FileRegion(front, region.Shape()).Shape() == region.Shape();
  }

  /** The contents of the file after a copy are determined. */
  lemma CopyIsUnique<T>(c: Copy, was: seq<T>, source: seq<T>, a: seq<T>, b: seq<T>)
    requires c.Valid() && |source| == ShapeSize(c.sourceShape) && |was| == ShapeSize(c.shape)
    requires Copied(c, was, source, a) && Copied(c, was, source, b)
    ensures a == b
  {
    assert Positive(c.shape);
    IndexIsBijection(c.shape);
    forall i | 0 <= i < |a| ensures a[i] == b[i] {
      var p := UnravelFrom(c.shape, i, 0);
      assert PixelAt(c.shape, a, p) == PixelAt(c.shape, b, p);
    }
  }

  /** The mapping of the write once its unknown bounds are resolved. */
  ghost function ResolvedFile(regions: FileMemRegions, fileShape: Position, shape: Position): (r: Region)
    requires regions.Valid() && |regions.file.front| == |fileShape| == |shape|
    reads regions
  {
    Region(regions.file.front, FileBacks(regions.file, regions.memory, Shift(fileShape, -1), Shift(shape, -1)))
  }

  ghost function ResolvedMemory(regions: FileMemRegions, fileShape: Position, shape: Position): (r: Region)
    requires regions.Valid() && |regions.file.front| == |fileShape| == |shape|
    reads regions
  {
    Region(regions.memory.front, MemoryBacks(regions.file, regions.memory, Shift(fileShape, -1), Shift(shape, -1)))
  }

  /** Write a region of a raster at a position of the file: either path makes the same copy. */
  method WriteResolved<T>(file: Raster<T>, front: Position, raster: Raster<T>, region: Region)
    requires file.Valid() && raster.Valid() && file.data != raster.data
    requires |region.front| == |front| && InBounds(raster.shape, region)
    requires InBounds(file.shape, FileRegion(front, region.Shape()))
    requires Contiguous(raster.shape, region, 2) ==>
      |front| >= 2 && forall i :: 2 <= i < |front| ==> front[i] == 1
    modifies file.data
    ensures WriteCopy(file.shape, front, raster.shape, region).Valid()
    ensures Copied(WriteCopy(file.shape, front, raster.shape, region), old(file.data[..]), raster.data[..],
                   file.data[..])
    ensures IsBlit(file.shape, front, old(file.data[..]), file.data[..], raster.shape, region.front, region.back,
                   raster.data[..])
  {
    WriteCopyValid(file.shape, front, raster.shape, region);
    var contiguous := IsContiguous(raster.shape, region, 2);
    if contiguous {
      WriteContiguous(file, front, raster, region);
      CopiedIsBlit(WriteCopy(file.shape, front, raster.shape, region), region.back, old(file.data[..]),
                   raster.data[..], file.data[..]);
    } else {
      WriteSubraster(file, front, raster, region);
    }
  }

  /**
   The back of the memory region once it is resolved: to the end of the file where the file back is unknown, or else
   to the end of the raster where the memory back is unknown, or else as it was.
   */
  ghost predicate IsResolvedBack(file: Region, memory: Region, fileShape: Position, shape: Position, back: Position)
    requires file.WellFormed() && memory.WellFormed()
    requires |file.front| == |memory.front| == |fileShape| == |shape|
  {
    && |back| == |shape|
    && forall i :: 0 <= i < |back| ==>
      back[i] ==
        if file.back[i] == -1 then fileShape[i] - 1 - file.front[i] + memory.front[i]
        else if memory.back[i] == -1 then shape[i] - 1
        else memory.back[i]
  }

  lemma ResolvedBack(file: Region, memory: Region, fileShape: Position, shape: Position, back: Position)
    requires file.WellFormed() && memory.WellFormed()
    requires |file.front| == |memory.front| == |fileShape| == |shape|
    requires IsResolvedBack(file, memory, fileShape, shape, back)
    ensures back == MemoryBacks(file, memory, Shift(fileShape, -1), Shift(shape, -1))
  {
  }

  lemma SameExtentsMatch(file: Region, memory: Region)
    requires file.WellFormed() && memory.WellFormed() && |file.front| == |memory.front|
    requires forall i :: 0 <= i < |file.front| ==> file.back[i] - file.front[i] == memory.back[i] - memory.front[i]
    ensures FileRegion(file.front, memory.Shape()) == file
  {
    assert FileRegion(file.front, memory.Shape()).back == file.back;
  }

  /** Write a region of a raster to a region of the file. */
  method WriteRegion<T>(file: Raster<T>, regions: FileMemRegions, raster: Raster<T>)
    requires file.Valid() && raster.Valid() && file.data != raster.data
    requires regions.Valid() && regions.Resolvable()
    requires |regions.file.front| == |file.shape| == |raster.shape| >= 1
    requires InBounds(file.shape, ResolvedFile(regions, file.shape, raster.shape))
    requires InBounds(raster.shape, ResolvedMemory(regions, file.shape, raster.shape))
    requires Contiguous(raster.shape, ResolvedMemory(regions, file.shape, raster.shape), 2) ==>
      |file.shape| >= 2 && forall i :: 2 <= i < |file.shape| ==> regions.file.front[i] == 1
    modifies file.data
    ensures var c := WriteCopy(file.shape, regions.file.front, raster.shape,
                               ResolvedMemory(regions, file.shape, raster.shape));
      && c.region == ResolvedFile(regions, file.shape, raster.shape)
      && c.Valid()
      && Copied(c, old(file.data[..]), raster.data[..], file.data[..])
    ensures forall back: Position | IsResolvedBack(regions.file, regions.memory, file.shape, raster.shape, back) ::
      IsBlit(file.shape, regions.file.front, old(file.data[..]), file.data[..], raster.shape, regions.memory.front,
             back, raster.data[..])
  {
    var resolved := new FileMemRegions.Clone(regions);
    resolved.Resolve(Shift(file.shape, -1), Shift(raster.shape, -1));
    var front, region := resolved.file.front, resolved.memory;
    SameExtentsMatch(resolved.file, region);
    WriteResolved(file, front, raster, region);
    forall back: Position | IsResolvedBack(regions.file, regions.memory, file.shape, raster.shape, back)
      ensures back == region.back
    {
      ResolvedBack(regions.file, regions.memory, file.shape, raster.shape, back);
    }
  }
}
