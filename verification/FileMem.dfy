/**
 Mappings between a part of the file and a part of the memory: n-D regions for images, row segments for
 binary tables.  A back index of -1 stands for the last index, and -2 (segments only) for "as many as on
 the other side"; a front of -1 in the file segment stands for the end of the table.
 */
module FileMem {

  import opened Geometry

  ghost predicate IsMax(p: Position)
  {
    forall i :: 0 <= i < |p| ==> p[i] == -1
  }

  method CheckMax(p: Position) returns (b: bool)
    ensures b == IsMax(p)
  {
    for i := 0 to |p|
      invariant forall j :: 0 <= j < i ==> p[j] == -1
    {
      if p[i] != -1 {
        return false;
      }
    }
    return true;
  }

  class FileMemRegions {
    var file: Region
    var memory: Region

    ghost predicate Valid()
      reads this
    {
      file.WellFormed() && memory.WellFormed() && |file.front| == |memory.front|
    }

    /** Each axis either has an unknown bound or has the same extent on both sides. */
    ghost predicate Resolvable()
      requires Valid()
      reads this
    {
      forall i :: 0 <= i < |file.front| ==>
        || file.back[i] == -1
        || memory.back[i] == -1
        || file.back[i] - file.front[i] == memory.back[i] - memory.front[i]
    }

    ghost predicate SameExtents()
      requires Valid()
      reads this
    {
      forall i :: 0 <= i < |file.front| ==> file.back[i] - file.front[i] == memory.back[i] - memory.front[i]
    }

    constructor FromFile(region: Region, position: Position)
      requires region.WellFormed() && |position| == |region.front|
      ensures Valid() && Resolvable()
      ensures file == region && memory.front == position
      ensures memory.back == DeducedBack(position, region)
      ensures forall i :: 0 <= i < |position| ==>
        memory.back[i] ==
          if (forall j :: 0 <= j < |position| ==> region.back[j] == -1) then 0
          else position[i] + region.back[i] - region.front[i]
    {
      file := region;
      memory := FromShape(position, region.Shape());
      new;
      assert memory.back == Plus(position, Minus(region.back, region.front));
      var max := CheckMax(file.back);
      if max {
        memory := memory.(back := Constant(|position|, 0));
      }
    }

    constructor FromMemory(position: Position, region: Region)
      requires region.WellFormed() && |position| == |region.front|
      ensures Valid() && Resolvable()
      ensures memory == region && file.front == position
      ensures file.back == DeducedBack(position, region)
      ensures forall i :: 0 <= i < |position| ==>
        file.back[i] ==
          if (forall j :: 0 <= j < |position| ==> region.back[j] == -1) then 0
          else position[i] + region.back[i] - region.front[i]
    {
      file := FromShape(position, region.Shape());
      memory := region;
      new;
      assert file.back == Plus(position, Minus(region.back, region.front));
      var max := CheckMax(memory.back);
      if max {
        file := file.(back := Constant(|position|, 0));
      }
    }

    constructor Clone(other: FileMemRegions)
      ensures file == other.file && memory == other.memory
    {
      file := other.file;
      memory := other.memory;
    }

    /** Replace the unknown bounds, given the last positions in the file and in the memory. */
    method Resolve(fileBack: Position, memoryBack: Position)
      requires Valid() && |fileBack| == |memoryBack| == |file.front|
      modifies this
      ensures Valid()
      ensures file == Region(old(file.front), FileBacks(old(file), old(memory), fileBack, memoryBack))
      ensures memory == Region(old(memory.front), MemoryBacks(old(file), old(memory), fileBack, memoryBack))
      ensures old(Resolvable()) ==> SameExtents() && Resolvable()
      ensures file.front == old(file.front) && memory.front == old(memory.front)
      ensures forall i :: 0 <= i < |fileBack| && old(file.back[i]) != -1 && old(memory.back[i]) != -1 ==>
        file.back[i] == old(file.back[i]) && memory.back[i] == old(memory.back[i])
      ensures forall i :: 0 <= i < |fileBack| && old(file.back[i]) == -1 ==>
        && file.back[i] == fileBack[i]
        && memory.back[i] - memory.front[i] == fileBack[i] - file.front[i]
      ensures forall i :: 0 <= i < |fileBack| && old(file.back[i]) != -1 && old(memory.back[i]) == -1 ==>
        && memory.back[i] == memoryBack[i]
        && file.back[i] - file.front[i] == memoryBack[i] - memory.front[i]
    {
      var ftom := Minus(memory.front, file.front);
      var fb, mb := file.back, memory.back;
      for i := 0 to |fb|
        invariant |fb| == |mb| == |ftom|
        invariant forall j :: i <= j < |fb| ==> fb[j] == file.back[j] && mb[j] == memory.back[j]
        invariant forall j :: 0 <= j < i ==>
          && fb[j] == FileBack(file.back[j], memory.back[j], fileBack[j], memoryBack[j], ftom[j])
          && mb[j] == MemoryBack(file.back[j], memory.back[j], fileBack[j], memoryBack[j], ftom[j])
      {
        if fb[i] == -1 {
          fb := fb[i := fileBack[i]];
          mb := mb[i := fb[i] + ftom[i]];
        } else if mb[i] == -1 {
          mb := mb[i := memoryBack[i]];
          fb := fb[i := mb[i] - ftom[i]];
        }
      }
      assert fb == FileBacks(file, memory, fileBack, memoryBack);
      assert mb == MemoryBacks(file, memory, fileBack, memoryBack);
      file := file.(back := fb);
      memory := memory.(back := mb);
    }
  }

  ghost function FileBacks(file: Region, memory: Region, fileBack: Position, memoryBack: Position): (r: Position)
    requires file.WellFormed() && memory.WellFormed()
    requires |file.front| == |memory.front| == |fileBack| == |memoryBack|
  {
    seq(|fileBack|, i requires 0 <= i < |fileBack| =>
      FileBack(file.back[i], memory.back[i], fileBack[i], memoryBack[i], memory.front[i] - file.front[i]))
  }

  ghost function MemoryBacks(file: Region, memory: Region, fileBack: Position, memoryBack: Position): (r: Position)
    requires file.WellFormed() && memory.WellFormed()
    requires |file.front| == |memory.front| == |fileBack| == |memoryBack|
  {
    seq(|fileBack|, i requires 0 <= i < |fileBack| =>
      MemoryBack(file.back[i], memory.back[i], fileBack[i], memoryBack[i], memory.front[i] - file.front[i]))
  }

  /** The back first given to the side that is only known by its front. */
  ghost function DeducedBack(position: Position, region: Region): (r: Position)
    requires region.WellFormed() && |position| == |region.front|
  {
    if IsMax(region.back) then Constant(|position|, 0) else Plus(position, Minus(region.back, region.front))
  }

  function FileBack(fb: int, mb: int, fileBack: int, memoryBack: int, ftom: int): (r: int)
  {
    if fb == -1 then fileBack else if mb == -1 then memoryBack - ftom else fb
  }

  function MemoryBack(fb: int, mb: int, fileBack: int, memoryBack: int, ftom: int): (r: int)
  {
    if fb == -1 then fileBack + ftom else if mb == -1 then memoryBack else mb
  }

  /**
   What a mapping from a position and a memory region promises: on each axis where the memory back is
   unknown, the region goes to the last index of the memory.
   */
  ghost predicate GoesToMemoryEnd(position: Position, region: Region, fileBack: Position, memoryBack: Position)
    requires region.WellFormed() && |position| == |region.front| == |fileBack| == |memoryBack|
  {
    var file := Region(position, DeducedBack(position, region));
    forall i :: 0 <= i < |position| && region.back[i] == -1 ==>
      MemoryBacks(file, region, fileBack, memoryBack)[i] == memoryBack[i]
  }

  /**
   With some bounds known and others not, the deduced file back is itself -1 wherever the two fronts
   coincide, and the end of the file is then used instead of the end of the memory.
   */
  lemma OpenMemoryCondition(position: Position, region: Region, fileBack: Position, memoryBack: Position)
    requires region.WellFormed() && |position| == |region.front| == |fileBack| == |memoryBack|
    ensures GoesToMemoryEnd(position, region, fileBack, memoryBack) <==>
      (IsMax(region.back) || forall i :: 0 <= i < |position| && region.back[i] == -1 ==>
        position[i] != region.front[i] || fileBack[i] == memoryBack[i])
  {
    var file := Region(position, DeducedBack(position, region));
    forall i | 0 <= i < |position| && region.back[i] == -1
      ensures MemoryBacks(file, region, fileBack, memoryBack)[i] == memoryBack[i] <==>
        IsMax(region.back) || position[i] != region.front[i] || fileBack[i] == memoryBack[i]
    {
    }
  }

  /** The lines 0 to 5 of a raster of width 4, written at the origin of a file of width 10. */
  lemma OpenMemoryCounterexample()
    ensures !GoesToMemoryEnd([0, 0], Region([0, 0], [-1, 5]), [9, 9], [3, 9])
  {
    var region := Region([0, 0], [-1, 5]);
    assert region.back[0] == -1 && region.back[1] == 5;
    OpenMemoryCondition([0, 0], region, [9, 9], [3, 9]);
  }

  // Segments

  datatype Segment = Segment(front: int, back: int) {
    function Size(): (r: int) {
      back - front + 1
    }
  }

  function FromSize(front: int, size: int): (r: Segment)
  {
    Segment(front, front + size - 1)
  }

  class FileMemSegments {
    var file: Segment
    var memory: Segment

    constructor FromFile(segment: Segment, index: int)
      ensures file == segment
      ensures memory == Segment(index, if segment.back == -1 then -2 else index + segment.Size() - 1)
    {
      file := segment;
      memory := FromSize(index, segment.Size());
      if segment.back == -1 {
        memory := Segment(index, -2);
      }
    }

    constructor FromMemory(index: int, segment: Segment)
      ensures file == Segment(index, if segment.back == -1 then -2 else index + segment.Size() - 1)
      ensures memory == segment
    {
      file := FromSize(index, segment.Size());
      memory := segment;
      if segment.back == -1 {
        file := Segment(index, -2);
      }
    }

    method Resolve(fileBack: int, memoryBack: int)
      modifies this
      ensures (file, memory) == Resolved(old(file), old(memory), fileBack, memoryBack)
    {
      if file.front == -1 {
        file := file.(front := fileBack + 1);
      } else if file.back == -1 {
        file := file.(back := fileBack);
      }
      if memory.back == -1 {
        memory := memory.(back := memoryBack);
      }
      if file.back == -2 {
        file := file.(back := file.front + memory.Size() - 1);
      } else if memory.back == -2 {
        memory := memory.(back := memory.front + file.Size() - 1);
      }
    }
  }

  function Resolved(file: Segment, memory: Segment, fileBack: int, memoryBack: int): (r: (Segment, Segment))
  {
    var f := if file.front == -1 then file.(front := fileBack + 1)
             else if file.back == -1 then file.(back := fileBack) else file;
    var m := if memory.back == -1 then memory.(back := memoryBack) else memory;
    if f.back == -2 then (f.(back := f.front + m.Size() - 1), m)
    else if m.back == -2 then (f, m.(back := m.front + f.Size() - 1))
    else (f, m)
  }

  /** The mapping built from a file index and a memory segment, once resolved. */
  function ResolvedFromMemory(index: int, segment: Segment, fileBack: int, memoryBack: int): (r: (Segment, Segment))
  {
    Resolved(Segment(index, if segment.back == -1 then -2 else index + segment.Size() - 1), segment,
             fileBack, memoryBack)
  }

  /** The mapping built from a file segment and a memory index, once resolved. */
  function ResolvedFromFile(segment: Segment, index: int, fileBack: int, memoryBack: int): (r: (Segment, Segment))
  {
    Resolved(segment, Segment(index, if segment.back == -1 then -2 else index + segment.Size() - 1),
             fileBack, memoryBack)
  }

  /**
   A memory segment mapped at a row of the file, or at its end (-1): the memory side is always as asked,
   and the file front is the asked row or the first row after the table.  The file side has the same
   size exactly if the segment is open-ended or the row is explicit, but for empty segments.
   */
  lemma MemorySegmentCondition(index: int, segment: Segment, fileBack: int, memoryBack: int)
    requires segment.front >= 0 && (segment.back >= segment.front - 1 || segment.back == -1)
    requires index >= -1 && fileBack >= -1 && memoryBack >= -1
    ensures var (f, m) := ResolvedFromMemory(index, segment, fileBack, memoryBack);
      && f.front == (if index == -1 then fileBack + 1 else index)
      && m == Segment(segment.front, if segment.back == -1 then memoryBack else segment.back)
      && (f.Size() == m.Size() <==>
          || segment.back == -1
          || (if segment.Size() == 0 then index != 0 || fileBack == -1 else index != -1))
  {
  }

  /** A non-empty or open-ended file segment always gets a memory segment of the same size. */
  lemma FileSegmentResolves(segment: Segment, index: int, fileBack: int, memoryBack: int)
    requires segment.front >= 0 && (segment.back >= segment.front || segment.back == -1)
    requires index >= 0 && fileBack >= -1 && memoryBack >= -1
    ensures var (f, m) := ResolvedFromFile(segment, index, fileBack, memoryBack);
      && f == Segment(segment.front, if segment.back == -1 then fileBack else segment.back)
      && m == FromSize(index, f.Size())
  {
  }
}
