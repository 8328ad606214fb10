/**
 Writing a subraster with the CFITSIO wrapper, which counts the front of the subraster twice.
 */
module WrapperWrites {

  import opened Geometry
  import opened Rasters
  import opened Screening
  import opened ImageIo

  /** The copy which is made: the source region starts at twice the front of the subraster. */
  function DoubledCopy(fileShape: Position, front: Position, parentShape: Position, region: Region): (c: Copy)
    requires region.WellFormed() && |region.front| == |front|
  {
    Copy(fileShape, FileRegion(front, region.Shape()), parentShape, Plus(region.front, region.front))
  }

  /** The 1-based line which is written at each step, and where it is read from. */
  lemma WrittenLine(c: Copy, region: Region, target: Position)
    requires c.Valid() && region.WellFormed() && |region.front| == |c.region.front| == |c.sourceFront|
    requires c.sourceFront == Plus(region.front, region.front)
    requires SourceLines(c.region).NonEmpty() && SourceLines(c.region).Contains(target)
    ensures var t, source := Shift(target, -1),
                             Plus(target, Minus(region.front, Shift(c.region.front, 1)));
      && c.region.LineFronts().Contains(t)
      && c.region.LineFronts().Rank(t) == SourceLines(c.region).Rank(target)
      && c.Source(t) == Plus(region.front, source)
  {
    var t, source := Shift(target, -1), Plus(target, Minus(region.front, Shift(c.region.front, 1)));
    var lines, shifted := c.region.LineFronts(), SourceLines(c.region);
    assert c.Source(t) == Plus(region.front, source);
    assert Minus(t, lines.front) == Minus(target, shifted.front);
    assert lines.Shape() == shifted.Shape();
  }

  /** Write one line. */
  method WriteWrappedLine<T>(file: Raster<T>, parent: Raster<T>, region: Region, target: Position, ghost c: Copy,
                             ghost was: seq<T>, delta: Position, size: int)
    requires file.Valid() && parent.Valid() && file.data != parent.data && |was| == file.data.Length
    requires c.Valid() && c.shape == file.shape && c.sourceShape == parent.shape
    requires region.WellFormed() && |region.front| == |c.region.front| == |c.sourceFront|
    requires c.sourceFront == Plus(region.front, region.front) && c.region.Shape()[0] == size
    requires delta == Minus(region.front, Shift(c.region.front, 1))
    requires SourceLines(c.region).NonEmpty() && SourceLines(c.region).Contains(target)
    requires LinesCopied(c, was, parent.data[..], SourceLines(c.region).Rank(target), file.data[..])
    modifies file.data
    ensures LinesCopied(c, was, parent.data[..], SourceLines(c.region).Rank(target) + 1, file.data[..])
  {
    ghost var now, t := file.data[..], Shift(target, -1);
    WrittenLine(c, region, target);
    SourceInDomain(c, t);
    LineFits(file.shape, t, size);
    var source := Plus(region.front, Plus(target, delta));
    LineFits(parent.shape, source, size);
    var b := Index(parent.shape, source);
    var line := parent.data[b..b + size];
    WritePixels(file, target, line);
    LineStep(c, was, parent.data[..], SourceLines(c.region).Rank(target), t, now, file.data[..]);
  }

  /** What the loop needs to know of the copy. */
  lemma DoubledLines(fileShape: Position, front: Position, parentShape: Position, region: Region)
    requires InBounds(parentShape, region) && |region.front| == |front|
    requires InBounds(parentShape, Region(Plus(region.front, region.front), Plus(region.front, region.back)))
    requires InBounds(fileShape, FileRegion(front, region.Shape()))
    ensures var c := DoubledCopy(fileShape, front, parentShape, region);
      && c.Valid() && c.region.front == front && c.region.Shape() == region.Shape()
      && Region(Shift(front, 1), Plus(front, region.Shape())).LineFronts() == SourceLines(c.region)
  {
    var c := DoubledCopy(fileShape, front, parentShape, region);
    assert c.region.Shape() == region.Shape();
    assert Shift(c.region.back, 1) == Plus(front, region.Shape());
  }

  lemma SameLineCount(region: Region)
    requires region.NonEmpty()
    ensures SourceLines(region).NonEmpty() && SourceLines(region).Size() == region.LineFronts().Size()
  {
    assert region.LineFronts().Shape() == SourceLines(region).Shape();
  }

  /** Write all the lines. */
  method WriteWrappedLines<T>(file: Raster<T>, parent: Raster<T>, region: Region, lines: Region, ghost c: Copy,
                              delta: Position, size: int)
    requires file.Valid() && parent.Valid() && file.data != parent.data
    requires c.Valid() && c.shape == file.shape && c.sourceShape == parent.shape
    requires region.WellFormed() && |region.front| == |c.region.front| == |c.sourceFront|
    requires c.sourceFront == Plus(region.front, region.front) && c.region.Shape()[0] == size
    requires delta == Minus(region.front, Shift(c.region.front, 1)) && lines == SourceLines(c.region)
    modifies file.data
    ensures Copied(c, old(file.data[..]), parent.data[..], file.data[..])
  {
    ghost var was := file.data[..];
    NothingCopied(c, was, parent.data[..]);
    SameLineCount(c.region);
    var it := new PositionIterator(lines, []);
    RankBounds(lines, lines.front);
    while it.current != PastBack(lines)
      invariant it.Valid() && it.region == lines && fresh(it) && it.Steps() <= lines.Size()
      invariant LinesCopied(c, was, parent.data[..], it.Steps(), file.data[..])
      decreases lines.Size() - it.Steps()
    {
      RankBounds(lines, it.current);
      WriteWrappedLine(file, parent, region, it.current, c, was, delta, size);
      it.Next();
    }
    AllCopied(c, was, parent.data[..], file.data[..]);
  }

  /** Write a subraster at a position of the file; the doubled region must be inside the raster. */
  method WriteWrapped<T>(file: Raster<T>, parent: Raster<T>, region: Region, front: Position)
    requires file.Valid() && parent.Valid() && file.data != parent.data
    requires InBounds(parent.shape, region) && |region.front| == |front|
    requires InBounds(parent.shape, Region(Plus(region.front, region.front), Plus(region.front, region.back)))
    requires InBounds(file.shape, FileRegion(front, region.Shape()))
    modifies file.data
    ensures DoubledCopy(file.shape, front, parent.shape, region).Valid()
    ensures Copied(DoubledCopy(file.shape, front, parent.shape, region), old(file.data[..]), parent.data[..],
                   file.data[..])
    ensures IsBlit(file.shape, front, old(file.data[..]), file.data[..], parent.shape, Plus(region.front, region.front),
                   Plus(region.front, region.back), parent.data[..])
  {
    DoubledLines(file.shape, front, parent.shape, region);
    var shape := region.Shape();
    var lines := Region(Shift(front, 1), Plus(front, shape)).LineFronts();
    var delta := Minus(region.front, Shift(front, 1));
    ghost var c := DoubledCopy(file.shape, front, parent.shape, region);
    WriteWrappedLines(file, parent, region, lines, c, delta, shape[0]);
    CopiedIsBlit(c, Plus(region.front, region.back), old(file.data[..]), parent.data[..], file.data[..]);
  }

  /** Two copies give the same pixels whatever the contents of the source. */
  ghost predicate SamePixels(c: Copy, d: Copy)
    requires c.Valid() && d.Valid() && c.region == d.region && c.sourceShape == d.sourceShape
  {
    forall contents: seq<int>, q: Position | |contents| == ShapeSize(c.sourceShape) && c.region.Contains(q) ::
      SourcePixel(c, contents, q) == SourcePixel(d, contents, q)
  }

  ghost function SourcePixel(c: Copy, contents: seq<int>, q: Position): (v: int)
    requires c.Valid() && |contents| == ShapeSize(c.sourceShape) && c.region.Contains(q)
  {
    SourceInDomain(c, q);
    PixelAt(c.sourceShape, contents, c.Source(q))
  }

  /** Copies from different fronts can be told apart by contents where each pixel has its own value. */
  lemma SameSourceFront(c: Copy, d: Copy)
    requires c.Valid() && d.Valid() && c.region == d.region && c.sourceShape == d.sourceShape && SamePixels(c, d)
    ensures c.sourceFront == d.sourceFront
  {
    var q := c.region.front;
    assert c.region.Contains(q);
    assert c.Source(q) == c.sourceFront && d.Source(q) == d.sourceFront;
    SourceInDomain(c, q);
    SourceInDomain(d, q);
    IndexBounds(c.sourceShape, c.sourceFront, 0);
    IndexBounds(c.sourceShape, d.sourceFront, 0);
    var contents := seq(ShapeSize(c.sourceShape), i => i);
    assert SourcePixel(c, contents, q) == SourcePixel(d, contents, q);
    IndexInjective(c.sourceShape, c.sourceFront, d.sourceFront);
  }

  /** The pixels are the right ones for all contents if and only if the subraster starts at the origin. */
  lemma DoubledCondition(fileShape: Position, front: Position, parentShape: Position, region: Region)
    requires InBounds(parentShape, region) && |region.front| == |front|
    requires InBounds(parentShape, Region(Plus(region.front, region.front), Plus(region.front, region.back)))
    requires InBounds(fileShape, FileRegion(front, region.Shape()))
    ensures var c, d := WriteCopy(fileShape, front, parentShape, region),
                        DoubledCopy(fileShape, front, parentShape, region);
      && c.Valid() && d.Valid()
      && (SamePixels(c, d) <==> forall i :: 0 <= i < |region.front| ==> region.front[i] == 0)
  {
    WriteCopyValid(fileShape, front, parentShape, region);
    DoubledLines(fileShape, front, parentShape, region);
    var c, d := WriteCopy(fileShape, front, parentShape, region), DoubledCopy(fileShape, front, parentShape, region);
    if forall i :: 0 <= i < |region.front| ==> region.front[i] == 0 {
      assert Plus(region.front, region.front) == region.front;
      assert c == d;
    }
    if SamePixels(c, d) {
      SameSourceFront(c, d);
      forall i | 0 <= i < |region.front| ensures region.front[i] == 0 {
        assert Plus(region.front, region.front)[i] == region.front[i];
      }
    }
  }
}
