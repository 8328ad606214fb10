/**
 Loops over the HDUs accepted by a filter.
 */
module HduLoops {

  import opened HduCategories
  import opened MefFiles

  /** The class of the HDUs that a loop is over. */
  datatype HduClass = AnyClass | ImageClass | BintableClass

  /** The category of a class. */
  function ForClass(target: HduClass): (r: Category)
  {
    match target
    case AnyClass => Any()
    case ImageClass => Image()
    case BintableClass => Bintable()
  }

  /** An HDU of that kind can be cast to the class. */
  predicate CastsTo(kind: Kind, target: HduClass)
  {
    match target
    case AnyClass => true
    case ImageClass => kind.ImageKind?
    case BintableClass => kind.BintableKind?
  }

  /** What happens at an HDU: the loop yields it, skips it, or raises an exception. */
  datatype Mark = Yield | Skip | Raise

  /** The mark of the HDU number `i`, given the statuses of the HDUs. */
  ghost function MarkOf(hdus: seq<FileHdu>, statuses: seq<Category>, filter: Filter, i: int): (r: Mark)
    requires |hdus| == |statuses| && 0 <= i < |hdus|
  {
    if hdus[i].kind.OtherKind? then Raise
    else
      match CategoryOf(hdus[i], statuses[i], i == 0)
      case None => Raise
      case Some(c) => if Accepts(filter, c) then Yield else Skip
  }

  ghost predicate AreMarks(marks: seq<Mark>, hdus: seq<FileHdu>, statuses: seq<Category>, filter: Filter)
  {
    && |marks| == |hdus| == |statuses|
    && forall i {:trigger MarkOf(hdus, statuses, filter, i)} :: 0 <= i < |hdus| ==>
      marks[i] == MarkOf(hdus, statuses, filter, i)
  }

  ghost function Marks(hdus: seq<FileHdu>, statuses: seq<Category>, filter: Filter): (r: seq<Mark>)
    requires |hdus| == |statuses|
    ensures AreMarks(r, hdus, statuses, filter)
  {
    seq(|hdus|, i requires 0 <= i < |hdus| => MarkOf(hdus, statuses, filter, i))
  }

  /** The marks once each yielded HDU is cast to the class, which raises an exception if it is of another one. */
  ghost function Cast(marks: seq<Mark>, hdus: seq<FileHdu>, target: HduClass): (r: seq<Mark>)
    requires |marks| == |hdus|
    ensures |r| == |marks|
    ensures forall i :: 0 <= i < |r| ==>
      r[i] == if marks[i] == Yield && !CastsTo(hdus[i].kind, target) then Raise else marks[i]
  {
    seq(|marks|, i requires 0 <= i < |marks| =>
      if marks[i] == Yield && !CastsTo(hdus[i].kind, target) then Raise else marks[i])
  }

  lemma CastSkips(marks: seq<Mark>, hdus: seq<FileHdu>, target: HduClass, i: int, j: int)
    requires |marks| == |hdus| && AllSkipped(marks, i, j)
    ensures AllSkipped(Cast(marks, hdus, target), i, j)
  {
  }

  /** The yielded HDUs from `i` on, up to the first one which raises an exception. */
  ghost function YieldedFrom(marks: seq<Mark>, i: nat): (r: seq<int>)
    requires i <= |marks|
    decreases |marks| - i
  {
    if i == |marks| || marks[i] == Raise then []
    else (if marks[i] == Yield then [i] else []) + YieldedFrom(marks, i + 1)
  }

  ghost predicate AllSkipped(marks: seq<Mark>, i: int, j: int)
  {
    forall k :: 0 <= i <= k < j && k < |marks| ==> marks[k] == Skip
  }

  lemma SkipOneMore(marks: seq<Mark>, i: nat, j: nat)
    requires i <= j < |marks| && AllSkipped(marks, i, j) && marks[j] == Skip
    ensures AllSkipped(marks, i, j + 1)
  {
  }

  ghost predicate NoneRaised(marks: seq<Mark>, j: int)
  {
    forall k :: 0 <= k < j && k < |marks| ==> marks[k] != Raise
  }

  lemma {:induction false} YieldedAfterSkips(marks: seq<Mark>, i: nat, j: nat)
    requires i <= j <= |marks| && AllSkipped(marks, i, j)
    ensures YieldedFrom(marks, i) == YieldedFrom(marks, j)
    decreases j - i
  {
    if i < j {
      YieldedAfterSkips(marks, i + 1, j);
    }
  }

  /** The HDUs before `i` are done. */
  ghost predicate Progress(marks: seq<Mark>, i: int, yielded: seq<int>)
  {
    && 0 <= i <= |marks| && NoneRaised(marks, i)
    && yielded + YieldedFrom(marks, i) == YieldedFrom(marks, 0)
  }

  lemma ProgressStarts(marks: seq<Mark>, i: int)
    requires 0 <= i <= |marks| && AllSkipped(marks, 0, i)
    ensures Progress(marks, i, [])
  {
    YieldedAfterSkips(marks, 0, i);
  }

  lemma ProgressStep(marks: seq<Mark>, i: int, j: int, yielded: seq<int>)
    requires i < j <= |marks| && Progress(marks, i, yielded) && marks[i] == Yield && AllSkipped(marks, i + 1, j)
    ensures Progress(marks, j, yielded + [i])
  {
    YieldedAfterSkips(marks, i + 1, j);
  }

  lemma ProgressEnds(marks: seq<Mark>, i: int, yielded: seq<int>)
    requires Progress(marks, i, yielded) && (i < |marks| ==> marks[i] == Raise)
    ensures yielded == YieldedFrom(marks, 0)
    ensures Raise in marks <==> i < |marks|
  {
    assert yielded + [] == yielded;
  }

  lemma {:induction false} YieldedBounds(marks: seq<Mark>, i: nat, j: int)
    requires i <= |marks| && j in YieldedFrom(marks, i)
    ensures i <= j < |marks| && marks[j] == Yield && forall k :: i <= k < j ==> marks[k] != Raise
    decreases |marks| - i
  {
    if marks[i] == Skip || j != i {
      YieldedBounds(marks, i + 1, j);
    }
  }

  lemma {:induction false} YieldedAll(marks: seq<Mark>, i: nat, j: nat)
    requires i <= j < |marks| && marks[j] == Yield && forall k :: i <= k < j ==> marks[k] != Raise
    ensures j in YieldedFrom(marks, i)
    decreases |marks| - i
  {
    if i < j {
      YieldedAll(marks, i + 1, j);
    }
  }

  lemma YieldedMembers(marks: seq<Mark>, j: int)
    ensures j in YieldedFrom(marks, 0) <==> 0 <= j < |marks| && marks[j] == Yield && NoneRaised(marks, j)
  {
    if j in YieldedFrom(marks, 0) {
      YieldedBounds(marks, 0, j);
    } else if 0 <= j < |marks| && marks[j] == Yield && NoneRaised(marks, j) {
      YieldedAll(marks, 0, j);
    }
  }

  lemma {:induction false} YieldedAscend(marks: seq<Mark>, i: nat, a: nat, b: nat)
    requires i <= |marks| && a < b < |YieldedFrom(marks, i)|
    ensures YieldedFrom(marks, i)[a] < YieldedFrom(marks, i)[b]
    decreases |marks| - i
  {
    var rest := YieldedFrom(marks, i + 1);
    if marks[i] == Yield {
      assert YieldedFrom(marks, i) == [i] + rest;
      YieldedBounds(marks, i + 1, rest[b - 1]);
      if a > 0 {
        YieldedAscend(marks, i + 1, a - 1, b - 1);
      }
    } else {
      assert YieldedFrom(marks, i) == rest;
      YieldedAscend(marks, i + 1, a, b);
    }
  }

  /** Access an HDU, and tell what happens there. */
  method Examine(f: MefFile, filter: Filter, i: int, ghost statuses: seq<Category>, ghost marks: seq<Mark>)
    returns (mark: Mark, hdu: Hdu?)
    requires f.Valid() && 0 <= i < |f.hdus|
    requires StatusesFrom(f.handles, statuses, i) && AreMarks(marks, f.hdus, statuses, filter)
    modifies f`current, f`handles, f`made, f.made`status
    ensures f.Valid() && f.hdus == old(f.hdus)
    ensures mark == marks[i] && (mark == Raise <==> hdu == null)
    ensures f.handles == if hdu == null then old(f.handles) else old(f.handles)[i := hdu]
    ensures StatusesFrom(f.handles, statuses, i + 1)
    ensures old(f.made) <= f.made && fresh(f.made - old(f.made))
  {
    assert marks[i] == MarkOf(f.hdus, statuses, filter, i);
    hdu := f.Access(i);
    if hdu == null {
      return Raise, null;
    }
    forall j | 0 <= j < |f.handles| && j != i ensures f.handles[j] != hdu {
      f.HandlesDiffer(i, j);
    }
    assert StatusesFrom(f.handles, statuses, i + 1);
    var category := f.ReadCategory(hdu, i);
    mark := if Accepts(filter, category) then Yield else Skip;
  }

  /** An iterator; `ok` is false once an exception was raised. */
  class HduIterator {
    const f: MefFile
    const filter: Filter
    var index: int
    var hdu: Hdu?
    var ok: bool

    /** An iterator to the first accepted HDU from `i` on. */
    constructor (f: MefFile, i: int, filter: Filter, ghost statuses: seq<Category>, ghost marks: seq<Mark>)
      requires f.Valid() && 0 <= i <= |f.hdus| && StatusesFrom(f.handles, statuses, i)
      requires AreMarks(marks, f.hdus, statuses, filter)
      modifies f`current, f`handles, f`made, f.made`status
      ensures this.f == f && this.filter == filter
      ensures f.Valid() && f.hdus == old(f.hdus) && i <= index <= |f.hdus| && AllSkipped(marks, i, index)
      ensures IsAt(marks)
      ensures index < |f.hdus| ==> StatusesFrom(f.handles, statuses, index + 1)
      ensures old(f.made) <= f.made && fresh(f.made - old(f.made))
    {
      this.f := f;
      this.filter := filter;
      this.index := i - 1;
      this.hdu := null;
      new;
      Next(statuses, marks);
    }

    /** At the end, at an accepted HDU, or at one which raises an exception. */
    ghost predicate IsAt(marks: seq<Mark>)
      requires |f.hdus| <= |marks|
      reads this, f
    {
      && 0 <= index <= |f.hdus| <= |f.handles|
      && (index < |f.hdus| ==> marks[index] == if ok then Yield else Raise)
      && (index == |f.hdus| ==> ok)
      && (ok && index < |f.hdus| ==> hdu == f.handles[index] != null)
    }

    /** Cast the current HDU to the class; fails if it is of another one. */
    method Dereference(target: HduClass, ghost marks: seq<Mark>) returns (casts: bool)
      requires f.Valid() && ok && index < |f.hdus| <= |marks| && IsAt(marks)
      ensures casts == CastsTo(f.hdus[index].kind, target)
    {
      assert Linked(f.handles[index], f.hdus[index], index);
      casts := CastsTo(hdu.kind, target);
    }

    /** Move to the next HDU, visit it, and tell what happens there. */
    method Visit(ghost statuses: seq<Category>, ghost marks: seq<Mark>) returns (mark: Mark)
      requires f.Valid() && 0 <= index + 1 < |f.hdus|
      requires StatusesFrom(f.handles, statuses, index + 1) && AreMarks(marks, f.hdus, statuses, filter)
      modifies this, f`current, f`handles, f`made, f.made`status
      ensures f.Valid() && f.hdus == old(f.hdus) && index == old(index) + 1
      ensures mark == marks[index] && (mark == Raise <==> hdu == null)
      ensures f.handles == if hdu == null then old(f.handles) else old(f.handles)[index := hdu]
      ensures StatusesFrom(f.handles, statuses, index + 1)
      ensures old(f.made) <= f.made && fresh(f.made - old(f.made))
    {
      index := index + 1;
      mark, hdu := Examine(f, filter, index, statuses, marks);
    }

    /** Move to the next accepted HDU, or to the end; fails at an HDU which is neither an image nor a binary table. */
    method Next(ghost statuses: seq<Category>, ghost marks: seq<Mark>)
      requires f.Valid() && -1 <= index < |f.hdus| && StatusesFrom(f.handles, statuses, index + 1)
      requires AreMarks(marks, f.hdus, statuses, filter)
      modifies this, f`current, f`handles, f`made, f.made`status
      ensures f.Valid() && f.hdus == old(f.hdus) && old(index) < index <= |f.hdus|
      ensures AllSkipped(marks, old(index) + 1, index) && IsAt(marks)
      ensures index < |f.hdus| ==> StatusesFrom(f.handles, statuses, index + 1)
      ensures old(f.made) <= f.made && fresh(f.made - old(f.made))
    {
      while index + 1 < f.HduCount()
        invariant f.Valid() && f.hdus == old(f.hdus) && old(index) <= index < |f.hdus|
        invariant StatusesFrom(f.handles, statuses, index + 1)
        invariant AllSkipped(marks, old(index) + 1, index + 1)
        invariant old(f.made) <= f.made && fresh(f.made - old(f.made))
        decreases |f.hdus| - index
      {
        var mark := Visit(statuses, marks);
        if mark != Skip {
          ok := mark == Yield;
          return;
        }
        SkipOneMore(marks, old(index) + 1, index);
      }
      index := f.HduCount();
      hdu := null;
      ok := true;
    }

    /** One turn of a range loop: dereference and move on; `yielded` are the HDUs yielded before. */
    method Turn(target: HduClass, ghost statuses: seq<Category>, ghost marks: seq<Mark>, ghost cast: seq<Mark>,
                ghost yielded: seq<int>)
      returns (casts: bool)
      requires f.Valid() && ok && 0 <= index < |f.hdus| && StatusesFrom(f.handles, statuses, index + 1)
      requires AreMarks(marks, f.hdus, statuses, filter) && IsAt(marks)
      requires cast == Cast(marks, f.hdus, target) && Progress(cast, index, yielded)
      modifies this, f`current, f`handles, f`made, f.made`status
      ensures f.Valid() && f.hdus == old(f.hdus) && old(index) <= index <= |f.hdus| && IsAt(marks)
      ensures old(f.made) <= f.made && fresh(f.made - old(f.made))
      ensures index < |f.hdus| ==> StatusesFrom(f.handles, statuses, index + 1)
      ensures if casts then old(index) < index && Progress(cast, index, yielded + [old(index)])
              else index == old(index) && cast[index] == Raise && Progress(cast, index, yielded)
    {
      ghost var i := index;
      casts := Dereference(target, marks);
      if casts {
        Next(statuses, marks);
        CastSkips(marks, f.hdus, target, i + 1, index);
        ProgressStep(cast, i, index, yielded);
      }
    }
  }

  /** A loop over the HDUs accepted by a filter, as those of a class; `statuses` are those before the loop. */
  method FilteredLoop(f: MefFile, filter: Filter, target: HduClass,
                      ghost statuses: seq<Category>, ghost marks: seq<Mark>)
    returns (ok: bool, yielded: seq<int>)
    requires f.Valid() && StatusesFrom(f.handles, statuses, 0) && AreMarks(marks, f.hdus, statuses, filter)
    modifies f`current, f`handles, f`made, f.made`status
    ensures f.Valid() && f.hdus == old(f.hdus)
    ensures yielded == YieldedFrom(Cast(marks, f.hdus, target), 0)
    ensures ok <==> Raise !in Cast(marks, f.hdus, target)
  {
    ghost var cast := Cast(marks, f.hdus, target);
    var it := new HduIterator(f, 0, filter, statuses, marks);
    yielded := [];
    CastSkips(marks, f.hdus, target, 0, it.index);
    ProgressStarts(cast, it.index);
    while it.ok && it.index != f.HduCount()
      invariant f.Valid() && f.hdus == old(f.hdus) && it.f == f && it.filter == filter && it.IsAt(marks)
      invariant fresh(it) && old(f.made) <= f.made && fresh(f.made - old(f.made))
      invariant it.index < |f.hdus| ==> StatusesFrom(f.handles, statuses, it.index + 1)
      invariant Progress(cast, it.index, yielded)
      decreases |f.hdus| - it.index
    {
      var i := it.index;
      ok := it.Turn(target, statuses, marks, cast, yielded);
      if !ok {
        ProgressEnds(cast, it.index, yielded);
        return;
      }
      yielded := yielded + [i];
    }
    ProgressEnds(cast, it.index, yielded);
    ok := it.ok;
  }
}
