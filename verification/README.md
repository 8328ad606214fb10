# EleFits: verified core

EleFits is a C++ library for FITS files built on top of CFITSIO.
This project models the layer above CFITSIO, which holds the algorithms, and proves what that layer promises.
CFITSIO is a plain store here: a flat array of pixels, a table of columns, a list of HDUs.

| modules | what they model |
|---|---|
| `Geometry`, `Screening`, `RegionLoops`, `Rasters` | positions, regions and raster indices of any dimension; position iterators and screeners with followers; loops over any region; contiguous regions and slices |
| `FileMem`, `ImageIo`, `WrapperWrites` | file/memory region and segment mappings; line-by-line reading and writing of image regions |
| `Tables`, `Cells`, `ColumnKeys`, `RowCounting`, `TableReads`, `TableWrites`, `ColumnRemoval`, `NamedColumns` | binary tables, element by element too; column keys with a cache; buffered reading, writing and appending; removal of several columns; the same by column names |
| `HduCategories`, `MefFiles`, `MefRuns`, `HduLoops`, `HduSelections` | categories as trits, filters and statuses; handles kept in step with the HDUs of the file; whole runs of operations; filtered loops |
| `Keywords`, `Tiling` | keyword categories; tile height of H-compress |
| `Wrappers` | what they share |

Pixels are ordered as in section 3.3.2 of the FITS Standard 4.0: the first axis varies fastest.
Binary tables are those of section 7.3; keyword categories come from sections 4.4.1 and 4.4.2.
Exceptions are results (`None`, a status, `ok == false`); integers are unbounded.
Ghost parameters named `t`, `was`, `statuses` or `targets` are values before the call which contracts refer to.

## Main results

* Images: writing a region line by line, or as one contiguous slice, and reading one with a screener and two
  followers, are all the same `Copied`: each pixel of the target region comes from the same offset in the source
  region, and every other pixel is as it was.  There is only one such outcome (`CopyIsUnique`).
* Iteration over a region goes through all ranks, which is the order of raster indices whatever the raster.
* Tables: the chunk loops end with what the unbuffered form gives, for any buffer size and although the table grows
  meanwhile; failures are characterized too (which ones, and what was written or read by then).
* Several columns are removed properly if and only if no column is listed twice; for any keys whatsoever, which columns
  are removed is a function of the values cached by the sort.
* Files: over any run of accesses, edits, appends and removals, the HDUs and their statuses are those of a simple fold,
  every handle has the index of its HDU, HDUs keep their handles, and edited or created statuses are never lost.
* Filtered loops yield exactly the selected HDUs, in order and all of the class, because `&` is the meet of the
  `isInstance` order.

## Where the code departs from what it promises

Each departure has its exact condition, for all inputs, and an input.

* `isContiguous` is stricter than needed: a slice is the region also if the region is one pixel thick along the axes
  above a partial one (`Rasters.ViewCondition`, `Rasters.StricterThanNeeded`).
* `FileMemRegions` from a position and a memory region with some bounds at -1: where the two fronts coincide, the end
  of the file is used instead of that of the memory (`FileMem.OpenMemoryCondition`, `FileMem.OpenMemoryCounterexample`).
* `FileMemSegments` with file front -1 and an explicit memory segment: the file back is not recomputed
  (`FileMem.MemorySegmentCondition`), so that the unbuffered append fails (`TableWrites.UnbufferedAppendFails`),
  while the buffered one is right (`TableWrites.AppendRows`).
* A slice of lower dimension is written to the right box only at index 1 along the missing axes
  (`ImageIo.SliceBoxCondition`, `ImageIo.SliceBoxCounterexample`).  Elsewhere the box either has no pixel or has more
  pixels than the slice (`ImageIo.SliceBoxPixels`), so that `write_region` is wrong for contiguous planes in 3-D images.
* A whole 1-D line is accepted as a 2-D slice, whose second axis does not exist (`Rasters.LineCondition`).
* The subraster `write_region` of the CFITSIO wrapper counts the front of the subraster twice, so that it is right only
  for subrasters at the origin (`WrapperWrites.DoubledCondition`).
* A loop over an empty region makes as many steps as its size only if it begins at its end
  (`RegionLoops.LoopCondition`, `RegionLoops.EmptyCounterexample`).
* A backward column index below `-count` drifts at each evaluation (`ColumnKeys.EvaluatedOnceCondition`,
  `ColumnKeys.DriftCondition`).  The buffered read evaluates keys twice, and reads a column which the unbuffered
  read does not find (`ColumnKeys.ReadOfNoColumn`).
* With such an index among others, `remove_seq` removes columns which no key stands for, or removes some columns before
  it raises an exception: something is removed if and only if the first value after the sort is that of a column,
  backward or not (`ColumnRemoval.NothingRemovedCondition`, `ColumnRemoval.SomethingRemoved`,
  `ColumnRemoval.WrongRemoval`, `ColumnRemoval.PartialRemoval`).
* Columns listed twice make `remove_seq` remove others (`ColumnRemoval.RemovalCondition`, `ColumnRemoval.RepeatedKeys`).
* `HduFilter::operator*` loses the constraint if there are no accepted categories (`HduCategories.ConstraintCondition`,
  `HduCategories.ConstraintLost`).  A loop over `filter<T>` then raises an exception when it dereferences an HDU of
  another class (`HduSelections.LoopOver`, `HduSelections.ClassIsLost`).
* The tile search fails for some heights (`Tiling.SearchFails`), for which the fallback can be unacceptable too
  (`Tiling.FallbackCounterexample`).
* A number is accepted after references which are not indexed ones, and the `n` of those which are is accepted as such
  (`Keywords.IntendedCategoryCondition`, `Keywords.ConfusedKeywords`).
* Reading the shape of an image calls the edit hook, hence `MefFiles.MefFile.ReadCategory` edits images.

## Model

| member | source | states |
|---|---|---|
| `Geometry.IndexLoop` | EleFitsData/EleFitsData/impl/Raster.hpp:58-76 | the loop form of the raster index gives the mixed-radix index, and raises an exception exactly if dimensions differ |
| `Geometry.RecursionIsLoop` | EleFitsData/EleFitsData/impl/Raster.hpp:27-76 | the recursive form equals the loop form at every depth, for every dimension |
| `Geometry.IndexIsBijection` | EleFitsData/EleFitsData/impl/Raster.hpp:27-76 | the index maps the domain one to one onto [0, shapeSize), with an explicit inverse both ways |
| `Geometry.IndexInjective` | EleFitsData/EleFitsData/impl/Raster.hpp:27-76 | two positions of the domain with the same index are the same |
| `Geometry.LexIsIndexOrder` | EleFitsData/EleFitsData/impl/Raster.hpp:27-76 | the order of indices is the lexicographic order from the last axis down |
| `Geometry.RankOrderIsIndexOrder` | EleFitsData/EleFitsData/PositionIterator.h:94-101 | the order of ranks in a region is the order of indices in any raster around it |
| `Geometry.RankOfCorners` | EleFitsData/EleFitsData/Region.h:25-63 | the front has rank 0 and the back has rank size - 1 |
| `Geometry.UnrankIsInverse` | EleFitsData/EleFitsData/Region.h:25-63 | each rank below the size is that of a position of the region |
| `Geometry.UnrankOfRank` | EleFitsData/EleFitsData/Region.h:25-63 | a position is given back by its rank |
| `Screening.CarryPropagates` | EleFitsData/EleFitsData/PositionIterator.h:111-120 | a carry never goes past the last axis |
| `Screening.Advance` | EleFitsData/EleFitsData/PositionIterator.h:107-121 | one odometer step adds one to the rank, and followers keep the same offset to their own fronts |
| `Screening.PositionIterator.constructor` | EleFitsData/EleFitsData/PositionIterator.h:150-153 | iteration starts at the front, after no step |
| `Screening.PositionIterator.Next` | EleFitsData/EleFitsData/PositionIterator.h:102-122 | one more step at each call; the end is reached exactly after the back |
| `Screening.PositionIterator.Reset` | EleFitsData/EleFitsData/PositionIterator.h:87-90 | back to the front, followers included |
| `Screening.Positions` | EleFitsData/EleFitsData/PositionIterator.h:146-164 | a loop from begin to end makes region.size() steps and visits the position of rank i at step i |
| `Screening.VisitedOnceInOrder` | EleFitsData/EleFitsData/PositionIterator.h:94-122 | such a loop visits each position of the region exactly once, nothing else, by increasing raster index |
| `RegionLoops.SteppedIsAdvanced` | EleFitsData/EleFitsData/PositionIterator.h:102-122 | in a region with pixels, a step before the back adds one to the rank |
| `RegionLoops.LoopOverPixels` | EleFitsData/EleFitsData/PositionIterator.h:102-164 | a loop over a region with pixels makes exactly region.size() steps |
| `RegionLoops.EndOfEmpty` | EleFitsData/EleFitsData/PositionIterator.h:102-164 | a loop over an empty region can only end if it has no pixel along the first axis exactly |
| `RegionLoops.LoopCondition` | EleFitsData/EleFitsData/PositionIterator.h:102-164 | for every region, the loop makes exactly size() steps if and only if the region has pixels or begins at its end |
| `RegionLoops.EmptyCounterexample` | EleFitsData/EleFitsData/PositionIterator.h:102-164 | an empty region of two lines, for which one step is made instead of none |
| `Screening.RegionScreener.constructor` | EleFitsData/EleFitsData/Region.h:246-272 | screening starts at the front with followers at theirs |
| `Screening.RegionScreener.Next` | EleFitsData/EleFitsData/Region.h:287-308 | the next rank, or the front again after the back; followers keep their offsets in every reachable state |
| `Screening.RegionScreener.Reset` | EleFitsData/EleFitsData/Region.h:273-276 | back to the front, followers included |
| `Screening.ScreenedRank` | EleFitsData/EleFitsData/Region.h:287-308 | after k steps the rank is the first one plus k, modulo the size |
| `Screening.ScreenerPeriod` | EleFitsData/EleFitsData/Region.h:287-308 | the screener is back where it was exactly every region.size() steps |
| `Rasters.IsContiguous` | EleFitsData/EleFitsData/impl/Raster.hpp:218-234 | the loops accept exactly the regions which span the axes below M - 1 and are one pixel thick from M on, coordinate by coordinate |
| `Rasters.MakeSlice` | EleFitsData/EleFitsData/impl/Raster.hpp:148-178 | a slice is made exactly for contiguous regions, lies inside the data, and its pixel q is the pixel front + q of the raster |
| `Rasters.ViewCondition` | EleFitsData/EleFitsData/impl/Raster.hpp:148-234 | the slice is the region (each pixel right, every pixel of the region there) if and only if the region spans all axes below its last thick one, and has no thick one from M on; contiguous regions do |
| `Rasters.AlignedCondition` | EleFitsData/EleFitsData/impl/Raster.hpp:148-178 | pixel q of the slice is pixel front + q for all q if and only if each axis below M is spanned or the next ones are one pixel thick |
| `Rasters.CoveredCondition` | EleFitsData/EleFitsData/impl/Raster.hpp:148-178 | every pixel of the region is in the slice if and only if the region is one pixel thick from M on |
| `Rasters.StricterThanNeeded` | EleFitsData/EleFitsData/impl/Raster.hpp:218-234 | a part of a row whose slice is right but which is refused |
| `Rasters.LineCondition` | EleFitsData/EleFitsData/impl/Raster.hpp:218-234 | in dimension 1, the whole line and nothing else is accepted as a 2-D region |
| `Rasters.SliceIsView` | EleFitsData/EleFitsData/impl/Raster.hpp:148-178 | for every contiguous region, the slice is the region: index of q in the slice plus the offset is the index of front + q, and every pixel of the region has its q |
| `Rasters.SliceIsInterval` | EleFitsData/EleFitsData/impl/Raster.hpp:148-234 | pixels of a contiguous region are exactly one interval of indices from that of the front |
| `Rasters.SectionsAreContiguous` | EleFitsData/EleFitsData/impl/Raster.hpp:180-216 | sections along the last axis are always contiguous, and with one dimension less exactly if they have one index |
| `FileMem.FileMemRegions.FromFile` | EleFits/EleFits/FileMemRegions.h:31-36 | file region as given, memory front as given, and each axis is open or has the same extent on both sides |
| `FileMem.FileMemRegions.FromMemory` | EleFits/EleFits/FileMemRegions.h:44-49 | memory region as given, file front as given, and each axis is open or has the same extent on both sides |
| `FileMem.FileMemRegions.Resolve` | EleFits/EleFits/FileMemRegions.h:68-87 | fronts are unchanged and both sides end with equal extents on every axis, for any mix of known and -1 bounds; known backs are left alone, an unknown file back is the end of the file, else an unknown memory back is the end of the memory |
| `FileMem.OpenMemoryCondition` | EleFits/EleFits/FileMemRegions.h:44-87 | open memory axes go to the end of the memory if and only if all are open, or fronts differ or ends coincide there |
| `FileMem.OpenMemoryCounterexample` | EleFits/EleFits/FileMemRegions.h:44-87 | an open first axis at the origin goes to the end of the file |
| `FileMem.FileMemSegments.FromFile` | EleFits/src/lib/FileMemSegments.cpp:10-15 | file segment as given; memory segment of the same size, or -2 if the size is unknown |
| `FileMem.FileMemSegments.FromMemory` | EleFits/src/lib/FileMemSegments.cpp:17-22 | memory segment as given; file segment of the same size, or -2 if the size is unknown |
| `FileMem.FileMemSegments.Resolve` | EleFits/src/lib/FileMemSegments.cpp:36-50 | both segments after the sentinels were replaced |
| `FileMem.MemorySegmentCondition` | EleFits/src/lib/FileMemSegments.cpp:17-50 | fronts and memory side are as asked, and both sides have the same size if and only if the memory is open-ended or the row is explicit (with the exact cases of empty segments) |
| `FileMem.FileSegmentResolves` | EleFits/src/lib/FileMemSegments.cpp:10-50 | a file segment always gets a memory segment of the same size at the asked row |
| `ImageIo.LineInterval` | EleFits/EleFits/impl/ImageRaster.hpp:119-127 | n consecutive indices are exactly n consecutive pixels of one line |
| `ImageIo.LineCopiedPixel` | EleFits/EleFits/impl/ImageRaster.hpp:122-129 | the next line changes exactly its own pixels |
| `ImageIo.LineStep` | EleFits/EleFits/impl/ImageRaster.hpp:122-129 | overwriting one line takes the raster from `lines` copied lines to one more |
| `ImageIo.AllCopied` | EleFits/EleFits/impl/ImageRaster.hpp:122-129 | once all lines are copied the whole region is, and nothing else |
| `ImageIo.CopiedIsBlit` | EleFits/EleFits/impl/ImageRaster.hpp:112-130 | a copy, coordinate by coordinate: each pixel is the one as far from the source front, and all pixels out of bounds along some axis are unchanged |
| `ImageIo.WriteLine` | EleFits/EleFits/impl/ImageRaster.hpp:122-127 | one write of nelem pixels from the 1-based target position adds the line of that source position |
| `ImageIo.WriteSubraster` | EleFits/EleFits/impl/ImageRaster.hpp:112-130 | file[front + p] is parent[region.front + p] for all p of the shape, coordinate by coordinate, every other pixel of the file is unchanged, for any dimensions M <= N |
| `ImageIo.ReadSubset` | EleCfitsioWrapper/EleCfitsioWrapper/impl/ImageWrapper.hpp:136-145 | the pixels of the 1-based box, in order, at an offset of the destination |
| `ImageIo.ReadLine` | EleCfitsioWrapper/EleCfitsioWrapper/impl/ImageWrapper.hpp:135-151 | one box read adds one line to the destination |
| `ImageIo.ReadRegionTo` | EleCfitsioWrapper/EleCfitsioWrapper/impl/ImageWrapper.hpp:115-152 | parent[dst.front + p] is file[region.front + p] for all p, coordinate by coordinate, no other pixel is touched, and there is exactly one read per line, of that line |
| `ImageIo.SliceBoxCondition` | EleCfitsioWrapper/EleCfitsioWrapper/impl/ImageWrapper.hpp:166-178 | the box is that of the raster if and only if the destination is 1 along the axes the raster does not have |
| `ImageIo.SliceBoxPixels` | EleCfitsioWrapper/EleCfitsioWrapper/impl/ImageWrapper.hpp:166-178 | the box has as many pixels as the raster if and only if it is the right one, none if the destination is 0 along any axis the raster does not have, and else more than the raster |
| `ImageIo.SliceBoxCounterexample` | EleCfitsioWrapper/EleCfitsioWrapper/impl/ImageWrapper.hpp:166-178 | a plane at the origin of a 3-D image gets a box without any pixel |
| `ImageIo.WriteSlice` | EleCfitsioWrapper/EleCfitsioWrapper/impl/ImageWrapper.hpp:166-178 | the pixels of the box get the values in order, others are unchanged |
| `ImageIo.SliceCopies` | EleFits/EleFits/impl/ImageRaster.hpp:95-96 | a box filled with the flat view of a contiguous region is a copy of the region |
| `ImageIo.WriteContiguous` | EleFits/EleFits/impl/ImageRaster.hpp:95-96 | the slice path gives the same copy as the line-by-line path |
| `ImageIo.WriteResolved` | EleFits/EleFits/impl/ImageRaster.hpp:95-99 | both branches make the same copy |
| `ImageIo.CopyIsUnique` | EleFits/EleFits/impl/ImageRaster.hpp:92-100 | two outcomes of the same copy are equal, so both paths leave the same file |
| `ImageIo.WriteRegion` | EleFits/EleFits/impl/ImageRaster.hpp:92-100 | whichever path is taken, the resolved memory region is copied to the resolved file region and nothing else changes; a region with known bounds is the one which is written |
| `WrapperWrites.WriteWrappedLine` | EleCfitsioWrapper/EleCfitsioWrapper/impl/ImageWrapper.hpp:200-208 | one turn of the line loop of the wrapper, which reads from twice the front |
| `WrapperWrites.WriteWrapped` | EleCfitsioWrapper/EleCfitsioWrapper/impl/ImageWrapper.hpp:180-209 | for equal dimensions, file[destination + p] is parent[2 * front + p] for all p, other pixels unchanged |
| `WrapperWrites.SameSourceFront` | EleCfitsioWrapper/EleCfitsioWrapper/impl/ImageWrapper.hpp:180-209 | copies which give the same pixels for all contents read from the same front |
| `WrapperWrites.DoubledCondition` | EleCfitsioWrapper/EleCfitsioWrapper/impl/ImageWrapper.hpp:180-209 | that copy is the right one for all contents if and only if the front of the subraster is zero |
| `Tables.PutEachColumn` | EleFits/EleFits/impl/BintableColumns.hpp:226-237 | each table column after unbuffered writes: extended, with the rows of the last written column of its name |
| `Tables.PutEachWrites` | EleFits/EleFits/impl/BintableColumns.hpp:285-302 | unbuffered writes meet `AreWritten` |
| `Tables.WrittenInChunks` | EleFits/EleFits/impl/BintableColumns.hpp:285-302 | k rows then w rows, on the grown table, are k + w rows |
| `Tables.WrittenUnique` | EleFits/EleFits/impl/BintableColumns.hpp:285-302 | `AreWritten` determines the table |
| `Tables.WrittenAtEnd` | EleFits/EleFits/impl/BintableColumns.hpp:285-302 | rows written from the row count on: earlier rows are kept, row r is at the old count + r, as many rows more |
| `Cells.RowsElement` | EleFitsData/EleFitsData/impl/Column.hpp:67-71 | element e of the row r is at (row + r) * repeat + e |
| `Cells.WriterByName` | EleFits/EleFits/impl/BintableColumns.hpp:226-237 | a table column is written by the last column of its name |
| `Cells.WrittenElement` | EleFits/EleFits/impl/BintableColumns.hpp:226-237 | each element of a written table column: that of the writer at the same distance, the old one, or filled |
| `Cells.AllCellsWritten` | EleFits/EleFits/impl/BintableColumns.hpp:285-302 | the same for all the elements of all the columns, by names |
| `Cells.AppendedElement` | EleFits/EleFits/impl/BintableColumns.hpp:285-302 | element (count + k) * repeat + e of the table column is element (m + k) * repeat + e of the column of its name |
| `Cells.KeptElement` | EleFits/EleFits/impl/BintableColumns.hpp:285-302 | old elements are where they were, index by index |
| `Tables.Find` | EleFits/src/lib/BintableColumns.cpp:38-41 | the index of the only column of that name, and none if there is no such column or several |
| `RowCounting.RowCountOf` | EleFits/EleFits/impl/BintableColumns.hpp:309-321 | the common number of rows, -1 without column, an exception exactly if two of them differ |
| `TableReads.ReadSegmentTo` | EleFits/EleFits/impl/BintableColumns.hpp:70-81 | the resolved file rows are put at the resolved memory rows, others are untouched; fails exactly if CFITSIO has not these rows, negative numbers of rows included |
| `TableReads.ReadElement` | EleFits/EleFits/impl/BintableColumns.hpp:70-81 | element (m + r) * repeat + e of the column is element (f + r) * repeat + e of the table column |
| `TableReads.ReadInChunks` | EleFits/EleFits/impl/BintableColumns.hpp:172-191 | k rows then w rows of a column are k + w rows |
| `TableReads.ColumnsReadInChunks` | EleFits/EleFits/impl/BintableColumns.hpp:172-191 | same for all the columns |
| `TableReads.ReadableInChunks` | EleFits/EleFits/impl/BintableColumns.hpp:172-191 | a chunk after readable ones is readable if and only if all rows up to it are |
| `TableReads.FailedChunkKeepsOutside` | EleFits/EleFits/impl/BintableColumns.hpp:172-191 | a failing chunk still leaves rows outside of the memory segment as they were |
| `TableReads.ReadChunk` | EleFits/EleFits/impl/BintableColumns.hpp:182-189 | one chunk of every column in turn, through lazily evaluated keys of any value, down to the first failure |
| `TableReads.ReadNextChunk` | EleFits/EleFits/impl/BintableColumns.hpp:178-190 | one more chunk: rows read so far plus that chunk, or a failure exactly if not all rows are readable |
| `TableReads.ReadChunks` | EleFits/EleFits/impl/BintableColumns.hpp:172-191 | for any buffer size the loop ends with the outcome of one unbuffered read |
| `TableReads.ReadSegmentSeqTo` | EleFits/EleFits/impl/BintableColumns.hpp:172-191 | every element of the resolved rows is that of the table, rows outside of the memory segment untouched, as after one unbuffered read per column, for keys of any value, which are evaluated twice; succeeds exactly if all keys stand for columns and the table has the rows |
| `TableReads.ReadIsUnbuffered` | EleFits/EleFits/impl/BintableColumns.hpp:70-191 | the buffered outcome is that of one unbuffered read per column: same columns, and success exactly if each one succeeds |
| `TableReads.MappedReadIsUnbuffered` | EleFits/EleFits/impl/BintableColumns.hpp:70-191 | the same for the mappings of either constructor, whose two sides have the same size |
| `TableWrites.WriteSegment` | EleFits/EleFits/impl/BintableColumns.hpp:226-237 | the resolved memory rows are put at the resolved file rows, element by element, growing the table; fails exactly if no single column has the name or the number of rows is negative |
| `TableWrites.WriteChunk` | EleFits/EleFits/impl/BintableColumns.hpp:295-300 | one chunk of every column in turn, up to the first missing one |
| `TableWrites.WriteColumns` | EleFits/EleFits/impl/BintableColumns.hpp:298-300 | the loop over columns goes through the tables of the unbuffered writes one by one, up to the missing column |
| `TableWrites.WriteNextChunk` | EleFits/EleFits/impl/BintableColumns.hpp:285-302 | one more chunk while the table grows; a failure is always at the first chunk |
| `TableWrites.WriteChunks` | EleFits/EleFits/impl/BintableColumns.hpp:285-302 | for any buffer size, all rows of all columns are written if no column is missing, else only the first chunk of those before it |
| `TableWrites.WriteSegmentSeq` | EleFits/EleFits/impl/BintableColumns.hpp:285-302 | same from unresolved segments, element by element, with the error of columns of different lengths |
| `TableWrites.WrittenIsUnbuffered` | EleFits/EleFits/impl/BintableColumns.hpp:285-302 | the buffered outcome is the table of the unbuffered writes |
| `TableWrites.AppendRows` | EleFits/EleFits/impl/BintableColumns.hpp:285-302 | appended segments of n rows, explicit or open-ended: old elements kept, row r of the last column of each name at the old count + r, n rows more, although the table grows in the loop; error for each kind of failure |
| `TableWrites.UnbufferedAppendFails` | EleFits/src/lib/FileMemSegments.cpp:17-50 | three rows appended to ten in one go resolve to the file rows 10 to 1 |
| `ColumnKeys.ColumnKey.FromIndex` | EleFits/src/lib/ColumnKey.cpp:12-14 | a key of given index |
| `ColumnKeys.ColumnKey.FromName` | EleFits/src/lib/ColumnKey.cpp:16-18 | a key of given name |
| `ColumnKeys.ColumnKey.Index` | EleFits/src/lib/ColumnKey.cpp:20-29 | an index, plus the count if it is negative, or the only column of the name, which is cached |
| `ColumnKeys.NameTarget` | EleFits/src/lib/ColumnKey.cpp:20-29 | a name stands for a column if and only if that is the only one of the name |
| `ColumnKeys.EvaluatedOnceCondition` | EleFits/src/lib/ColumnKey.cpp:20-29 | evaluating again, or passing the value on as a key, gives the same column if and only if the index is at least minus the count of columns |
| `ColumnKeys.DriftCondition` | EleFits/src/lib/ColumnKey.cpp:20-29 | after any number of evaluations an index is that of a column if and only if it is not below minus the count as many times, and the column is then the index modulo the count |
| `ColumnKeys.ReadOfNoColumn` | EleFits/EleFits/impl/BintableColumns.hpp:185-189 | among four columns, -5 stands for none, and for the column 3 once passed on |
| `ColumnRemoval.DeletedAllIsUnlisted` | EleFits/src/lib/BintableColumns.cpp:79-86 | removing distinct indices in descending order leaves exactly the unlisted columns, in order |
| `ColumnRemoval.RemovalCondition` | EleFits/src/lib/BintableColumns.cpp:79-86 | descending removal leaves exactly the unlisted columns if and only if no index is repeated |
| `ColumnRemoval.RepeatedKeys` | EleFits/src/lib/BintableColumns.cpp:79-86 | the first of two columns listed twice: both are removed |
| `ColumnRemoval.InTurnIsDeletion` | EleFits/src/lib/BintableColumns.cpp:83-85 | removal in turn by cached values is the deletion of these indices, backward ones being counted from what is left |
| `ColumnRemoval.NothingRemovedCondition` | EleFits/src/lib/BintableColumns.cpp:83-85 | nothing is removed if and only if the first cached value is not that of a column, backward or not |
| `ColumnRemoval.Before` | EleFits/src/lib/BintableColumns.cpp:80-82 | the comparison evaluates both keys, of any value, and compares the columns they stand for unless they drift |
| `ColumnRemoval.SortDescending` | EleFits/src/lib/BintableColumns.cpp:80-82 | a permutation of any keys, all evaluated if there are several, by descending column unless they drift; fails only for an unknown name |
| `ColumnRemoval.Remove` | EleFits/src/lib/BintableColumns.cpp:71-77 | the column of the key is deleted, or nothing is |
| `ColumnRemoval.WrongRemoval` | EleFits/src/lib/BintableColumns.cpp:79-86 | keys 0 and -5 on four columns always have something removed, and with one evaluation each the columns 0 and 3, though -5 stands for none |
| `ColumnRemoval.PartialRemoval` | EleFits/src/lib/BintableColumns.cpp:79-86 | keys 0 and -100 on four columns: 0 is removed before the exception |
| `ColumnRemoval.SomethingRemoved` | EleFits/src/lib/BintableColumns.cpp:79-86 | several keys from minus twice the count on always have something removed, however they are sorted |
| `ColumnRemoval.RemoveEach` | EleFits/src/lib/BintableColumns.cpp:83-85 | removal in turn by the cached values, whatever they are, down to the first failure |
| `ColumnRemoval.RemoveSeq` | EleFits/src/lib/BintableColumns.cpp:79-86 | for any keys: which columns are removed, in turn by the cached values of a permutation, and the rest of the table kept; if no key drifts, exactly the unlisted columns are left if and only if keys stand for distinct columns, and nothing is removed if one stands for none |
| `ColumnRemoval.StableRemoval` | EleFits/src/lib/BintableColumns.cpp:79-86 | the same promise for keys which do not drift, as a property of the cached values |
| `NamedColumns.RemoveNames` | EleFits/src/lib/BintableColumns.cpp:79-86 | given names: exactly the columns without any of the names are left, in order, if and only if names are distinct; nothing is removed if a name is not that of a single column |
| `NamedColumns.ReadNames` | EleFits/EleFits/impl/BintableColumns.hpp:172-191 | given names: every element of the resolved rows of each column is that of the table column of its name |
| `HduCategories.InstanceIsRefinement` | EleFitsData/src/lib/HduCategory.cpp:71-103 | isInstance holds if and only if each constrained trit of the model is that of the category |
| `HduCategories.InstanceIsOrder` | EleFitsData/src/lib/HduCategory.cpp:71-103 | isInstance is a partial order |
| `HduCategories.RestrictIsMeet` | EleFitsData/src/lib/HduCategory.cpp:33-103 | `&` is the greatest lower bound, and raises an exception exactly if there is no common instance |
| `HduCategories.ExtendIsJoin` | EleFitsData/src/lib/HduCategory.cpp:43-107 | `\|` is the least upper bound |
| `HduCategories.ToggleKeepsOrder` | EleFitsData/src/lib/HduCategory.cpp:28-88 | `~` is an involution which keeps the order |
| `HduCategories.OverwriteIsRestriction` | EleFitsData/src/lib/HduCategory.cpp:53-111 | `<<` gives an instance of its right operand, is `&` where that is defined, and leaves exactly the instances as they are |
| `HduCategories.PredefinedTrits` | EleFitsData/src/lib/HduCategory.cpp:123-157 | the trits of each predefined category |
| `HduCategories.SingleAccepts` | EleFitsData/src/lib/HduCategory.cpp:250-266 | a single category accepts its instances, and the empty filter everything |
| `HduCategories.UnionAccepts` | EleFitsData/src/lib/HduCategory.cpp:250-266 | two accept lists together accept what either accepts |
| `HduCategories.AcceptingAccepts` | EleFitsData/src/lib/HduCategory.cpp:194-204 | `+` lets the instances of a category in, unless they are rejected |
| `HduCategories.RejectingAccepts` | EleFitsData/src/lib/HduCategory.cpp:222-231 | `-` shuts the instances of a category out |
| `HduCategories.ConstrainedAccepts` | EleFitsData/src/lib/HduCategory.cpp:209-266 | a constrained filter accepts what the filter accepts among the instances of the constraint |
| `HduCategories.EmptyAcceptCondition` | EleFitsData/src/lib/HduCategory.cpp:209-266 | without accepted categories the filter is not constrained at all, and that law holds if and only if there is no constraint or everything is rejected |
| `HduCategories.ConstraintCondition` | EleFitsData/src/lib/HduCategory.cpp:209-266 | for every filter which can be constrained, the law holds for all categories if and only if some are accepted, there is no constraint, or everything is rejected |
| `HduCategories.ConstraintLost` | EleFitsData/src/lib/HduCategory.cpp:209-220 | the empty filter constrained to binary tables accepts everything |
| `HduCategories.StatusStepStays` | EleFits/src/lib/Hdu.cpp:98-108 | touch and edit stay among the four statuses, edit never raises an exception, and gives an edited status |
| `HduCategories.EditedStays` | EleFits/src/lib/Hdu.cpp:98-108 | touch and edit leave edited and created statuses as they are |
| `HduCategories.TouchTrits` | EleFits/src/lib/Hdu.cpp:98-103 | a touch makes an untouched HDU touched, and neither edits nor creates it |
| `HduCategories.EditTrits` | EleFits/src/lib/Hdu.cpp:105-108 | an edit sets the edited trit besides, and nothing else |
| `HduCategories.StatusRun` | EleFits/src/lib/Hdu.cpp:98-108 | the same over any run of touches and edits |
| `MefFiles.CategoryIsDefined` | EleFits/src/lib/Hdu.cpp:36-45 | the category has the expected trit at every position, and raises an exception exactly for a binary table as first HDU |
| `MefFiles.WithDataIsDefined` | EleFits/src/lib/BintableHdu.cpp:46-54 | trits of type, status, place and emptiness, with the exact exception; this is the whole category of a binary table |
| `MefFiles.ImageIsDefined` | EleFits/src/lib/ImageHdu.cpp:66-85 | the pixel type and compression trits of an image are always compatible with the others, and get the expected values |
| `MefFiles.CategoryExists` | EleFits/src/lib/Hdu.cpp:36-45 | the category of an HDU of a valid file exists and is not changed by a touch |
| `MefFiles.MefFile.constructor` | EleFits/EleFits/impl/MefFile.hpp:39-58 | a file with one empty slot per HDU |
| `MefFiles.MefFile.Access` | EleFits/EleFits/impl/MefFile.hpp:39-58 | the handle already there, or a new untouched one, for forward and backward indices; no other slot changes |
| `MefFiles.MefFile.Append` | EleFits/EleFits/impl/MefFile.hpp:136-253 | one more HDU with a created handle in the last slot |
| `MefFiles.MefFile.Touch` | EleFits/src/lib/Hdu.cpp:98-103 | the HDU of the handle is made current, and untouched becomes touched |
| `MefFiles.MefFile.Edit` | EleFits/src/lib/Hdu.cpp:105-108 | the HDU of the handle is made current, and its status edited |
| `MefFiles.MefFile.ReadCategory` | EleFits/src/lib/Hdu.cpp:36-45 | never raises an exception in a valid file; images are edited by it |
| `MefFiles.MefFile.OverwriteFirst` | EleFits/src/lib/ImageHdu.cpp:37-52 | field by field, the first HDU gets the name, the pixels, the type and the user records of the next one, if that is an image, keeps its other records and compression; both are edited and handles are kept |
| `MefFiles.AssignedIsOverwritten` | EleFits/src/lib/ImageHdu.cpp:37-52 | the assignment of an image to another one, field by field |
| `MefFiles.MefFile.EditFirstTwo` | EleFits/EleFits/impl/MefFile.hpp:256-257 | accesses to the next and first HDUs: fails exactly if there is no next image; both edited, no handle replaced |
| `MefFiles.MefFile.Renumber` | EleFits/EleFits/impl/MefFile.hpp:263-265 | decrementing the indices of the handles after an erased one makes them all right |
| `MefFiles.MefFile.RemoveExtension` | EleFits/EleFits/impl/MefFile.hpp:259-266 | HDU and slot are erased and later handles get the index of their HDU |
| `MefFiles.MefFile.RemoveFirst` | EleFits/EleFits/impl/MefFile.hpp:256-258 | removal of the first HDU through the next one; never leaves a binary table first |
| `MefFiles.MefFile.Remove` | EleFits/EleFits/impl/MefFile.hpp:255-267 | when it succeeds, HDUs and handles left, field by field for an overwritten first HDU, their statuses, and that slots, indices and the first image stay right |
| `MefRuns.FollowsAfter` | EleFits/EleFits/impl/MefFile.hpp:39-267 | "HDUs are new or keep their handle" is transitive over operations |
| `MefRuns.FollowsRemoval` | EleFits/EleFits/impl/MefFile.hpp:259-266 | a removal keeps the handles of all surviving HDUs |
| `MefRuns.FollowsFirstRemoval` | EleFits/EleFits/impl/MefFile.hpp:256-258 | so does that of the first HDU |
| `MefRuns.StepRemovesFirst` | EleFits/EleFits/impl/MefFile.hpp:255-258 | the removal of the first HDU in the plain list, field by field |
| `MefRuns.UseHandle` | EleFits/src/lib/Hdu.cpp:36-108 | the status of an HDU after it was touched, edited or asked for its category |
| `MefRuns.Do` | EleFits/EleFits/impl/MefFile.hpp:39-267 | one operation on the file refines the same operation on a plain list of HDUs and statuses, and keeps handles |
| `MefRuns.Run` | EleFits/EleFits/impl/MefFile.hpp:39-267 | over any run: slots match HDUs, each handle in slot i has CFITSIO index i + 1 and is for that HDU, surviving HDUs keep their handle, edited and created statuses are kept, the first HDU is an image, and HDUs and statuses are those of the plain list |
| `HduLoops.Examine` | EleFits/src/lib/Hdu.cpp:51-53 | whether an HDU matches a filter when it is visited; HDUs not visited yet keep their statuses |
| `HduLoops.HduIterator.constructor` | EleFits/EleFits/impl/HduIterator.hpp:12-16 | an iterator from any index is moved to the first accepted HDU from there on, or to the end |
| `HduLoops.HduIterator.Visit` | EleFits/EleFits/impl/HduIterator.hpp:56-64 | one turn of the do-while loop: one index further, and whether the HDU there is accepted |
| `HduLoops.HduIterator.Next` | EleFits/EleFits/impl/HduIterator.hpp:54-65 | moves to the first HDU after the current one which is accepted, or to the end; all those in between are rejected |
| `HduLoops.HduIterator.Dereference` | EleFits/EleFits/impl/HduIterator.hpp:18-21 | the cast succeeds exactly for HDUs of the class |
| `HduLoops.HduIterator.Turn` | EleFits/EleFits/impl/HduIterator.hpp:18-35 | one turn of a range loop: the HDU is yielded and the loop moves on, or the cast raises an exception |
| `HduLoops.YieldedMembers` | EleFits/EleFits/impl/HduIterator.hpp:54-75 | an HDU is yielded if and only if it is accepted and no HDU before it raises an exception |
| `HduLoops.YieldedAscend` | EleFits/EleFits/impl/HduIterator.hpp:54-75 | in ascending order, once each |
| `HduLoops.FilteredLoop` | EleFits/EleFits/impl/HduIterator.hpp:54-75 | a loop from begin to end, each HDU being cast to the class: what it yields, and that it raises an exception exactly if an HDU does, when it is accessed or cast |
| `HduSelections.ClassAccepts` | EleFits/EleFits/impl/MefFile.hpp:89-92 | what the filter of a class accepts: instances of no rejected category, of some accepted one if any, and then of the class |
| `HduSelections.YieldedIsSelected` | EleFits/EleFits/impl/MefFile.hpp:89-92 | an HDU is yielded if and only if no HDU up to it raises an exception, and its category when visited is accepted and is an instance of that of the class |
| `HduSelections.WantedIsOfClass` | EleFits/EleFits/impl/MefFile.hpp:89-92 | with accepted categories, an HDU which passes the filter of a class can be cast to it |
| `HduSelections.InstanceOfClass` | EleFitsData/src/lib/HduCategory.cpp:159-187 | the category of an HDU is an instance of that of a class if and only if the HDU can be cast to it |
| `HduSelections.SelectedAreOfClass` | EleFits/EleFits/impl/MefFile.hpp:89-92 | yielded HDUs are of the class; with accepted categories, only HDUs which are neither images nor binary tables raise an exception |
| `HduSelections.ClassIsLost` | EleFits/EleFits/impl/HduIterator.hpp:18-21 | without accepted categories, a loop over binary tables raises an exception at an image |
| `HduSelections.LoopOver` | EleFits/EleFits/impl/MefFile.hpp:89-92 | a loop over `filter<T>(F)` yields exactly the selected HDUs, in ascending order, all of the class; fails exactly for an incompatible filter, an HDU of no class, or an accepted one of another class, the latter only without accepted categories |
| `Keywords.MatchesTwo` | EleFitsData/src/lib/KeywordCategory.cpp:73-99 | references matched by the same keyword have the same stem |
| `Keywords.OneKindOnly` | EleFitsData/src/lib/KeywordCategory.cpp:73-106 | no keyword matches references of two categories |
| `Keywords.BelongsToItsCategory` | EleFitsData/src/lib/KeywordCategory.cpp:47-106 | a keyword belongs to a mask if and only if the mask has its category, CONTINUE to none |
| `Keywords.CategoryMembers` | EleFitsData/src/lib/KeywordCategory.cpp:47-71 | the members of each of the four categories |
| `Keywords.IndexedMatches` | EleFitsData/src/lib/KeywordCategory.cpp:80-99 | a stem followed by s matches that stem and a letter as indexed if and only if s is a number |
| `Keywords.ExactlyOneCategory` | EleFitsData/src/lib/KeywordCategory.cpp:47-106 | every keyword other than CONTINUE has exactly one of the four categories |
| `Keywords.BelongsToUnion` | EleFitsData/src/lib/KeywordCategory.cpp:47-106 | belonging to the union of two masks is belonging to one of them, for all masks |
| `Keywords.ConfusedOrIntended` | EleFitsData/src/lib/KeywordCategory.cpp:73-99 | no keyword both is confused with a reference and matches another one as intended |
| `Keywords.ConfusedInList` | EleFitsData/src/lib/KeywordCategory.cpp:73-106 | a keyword is confused with a reference of a list if and only if it matches some of the list but none as intended |
| `Keywords.IntendedCategoryCondition` | EleFitsData/src/lib/KeywordCategory.cpp:47-106 | a keyword gets the category of the standard if and only if it neither has a number in place of the last letter of a reference which is not indexed, nor is an indexed reference itself |
| `Keywords.IntendedBelongingCondition` | EleFitsData/src/lib/KeywordCategory.cpp:47-106 | the same for belonging to every mask |
| `Keywords.ConfusedKeywords` | EleFitsData/src/lib/KeywordCategory.cpp:73-106 | DAT1 and CDELTn are reserved because of DATE and CDELTn |
| `Tiling.SameShortRemainder` | EleFits/EleFits/impl/CompressionStrategy.hpp:124-129 | short remainders by the heights which divide 5040 are all the remainder by 5040 |
| `Tiling.SearchFails` | EleFits/EleFits/impl/CompressionStrategy.hpp:124-129 | the search fails if and only if the remainders of the height by 5040, 22 and 26 are all 1, 2 or 3 |
| `Tiling.HcompressTiling` | EleFits/EleFits/impl/CompressionStrategy.hpp:112-133 | whole image up to 30 rows; else the height given by the remainders in their order of preference, from 14 to 30, the fallback exactly if the search fails |
| `Tiling.FallbackCounterexample` | EleFits/EleFits/impl/CompressionStrategy.hpp:131-132 | a height for which even the fallback leaves one row |

## Left out

- CFITSIO itself, opening and closing of files, error wrapping and type codes: only the calls which are needed are modelled, on plain stores.
- Integer overflow of positions and indices.
- ImageIo.WriteRegion: contiguous regions must be written at index 1 along the axes after the second one; otherwise the box has no pixel, or more pixels than there are values to read, as `SliceBoxPixels` shows, and what CFITSIO does then is not modelled. Whole 1-D lines are excluded, as `slice` reads a second axis. Raster and image have the same dimension.
- ImageIo.WriteContiguous: same as `ImageIo.WriteRegion`.
- WrapperWrites.WriteWrapped: the region which starts at twice the front must be inside the raster, as it is read outside of it otherwise; dimensions are equal.
- `ImageRaster::read_region_to`, which uses accessors that are not declared.
- Slices and sections of variable dimension (-1), and empty regions for screeners; loops over empty regions are those of `RegionLoops`, without followers.
- `Raster::at` and `Column::at` with backward indices, `Column::field`: easy members.
- String columns, whose repeat count is not a number of elements, and wildcards and case in column names.
- TableReads.ReadSegmentSeqTo: the columns are distinct buffers and hold the resolved memory rows, which are read outside of the columns otherwise.
- TableWrites.WriteSegment: the resolved rows are inside the column, as they are read outside of it otherwise.
- CFITSIO is taken to refuse negative numbers of rows.
- ColumnRemoval.RemoveSeq: keys are distinct objects, as the elements of a vector are. How many times the sort evaluates each of them, which matters only for keys below minus the column count, is left open.
- ColumnRemoval.SortDescending: the algorithm of `std::sort` is taken as an insertion sort; the order of equal keys is not promised by either, and keys which drift while they are compared are in no order.
- MefFiles.MefFile.Remove: the handles after the removed HDU must be loaded, as in the code, which dereferences them.
- MefFiles.MefFile.OverwriteFirst: records are name and value, without units and comments, and pixels are integers.
- HDUs which are neither images nor binary tables get no handle: reading their type raises an exception.
- `MefFile::append` of a copied HDU, access and search by name, strategies and their actions.
- Quantization, scaling and the other tilings of the compression strategy; one-dimensional images in the H-compress path.
- `filterCategories`, `read_columns`, `insert_null`: easy or faulty helpers.
- The dangling region reference of `end()`, which is a matter of lifetime.
