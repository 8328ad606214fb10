/**
 Loops over the HDUs of a class which are accepted by a filter.
 */
module HduSelections {

  import opened Wrappers
  import opened HduCategories
  import opened MefFiles
  import opened HduLoops

  /**
   A category is an instance of no rejected category, of some accepted one, and of that of the class.  A filter without
   accepted categories loses the class.
   */
  ghost predicate Wanted(filter: Filter, model: Category, c: Category)
  {
    && (forall i :: 0 <= i < |filter.reject| ==> !IsInstance(c, filter.reject[i]))
    && (filter.accept != [] ==>
      && (exists i :: 0 <= i < |filter.accept| && IsInstance(c, filter.accept[i]))
      && IsInstance(c, model))
  }

  /** An exception is raised at the HDU number `i`: it has no handle, or is wanted though it is of another class. */
  ghost predicate BreaksAt(hdus: seq<FileHdu>, statuses: seq<Category>, filter: Filter, target: HduClass, i: int)
    requires |hdus| == |statuses|
  {
    && 0 <= i < |hdus|
    && (|| hdus[i].kind.OtherKind?
        || (!CastsTo(hdus[i].kind, target) && Wanted(filter, ForClass(target), TritsOf(hdus[i], statuses[i], i == 0))))
  }

  /** The HDU number `i` can be reached, and is wanted for its category when it is visited. */
  ghost predicate SelectedAt(hdus: seq<FileHdu>, statuses: seq<Category>, filter: Filter, target: HduClass, i: int)
    requires |hdus| == |statuses|
  {
    && 0 <= i < |hdus| && (forall k :: 0 <= k <= i ==> !BreaksAt(hdus, statuses, filter, target, k))
    && Wanted(filter, ForClass(target), TritsOf(hdus[i], statuses[i], i == 0))
  }

  /** What is wanted is of the class, if there are accepted categories: only other HDUs then raise an exception. */
  lemma WantedIsOfClass(filter: Filter, target: HduClass, hdu: FileHdu, status: Category, first: bool)
    requires filter.accept != [] && !hdu.kind.OtherKind?
    requires Wanted(filter, ForClass(target), TritsOf(hdu, status, first))
    ensures CastsTo(hdu.kind, target)
  {
    InstanceIsRefinement(TritsOf(hdu, status, first), ForClass(target));
    assert Image()[IMAGE_BINTABLE] == First && Bintable()[IMAGE_BINTABLE] == Second;
  }

  /** The category of a class is that of its HDUs: images, or binary tables, which are never first. */
  lemma InstanceOfClass(target: HduClass, hdu: FileHdu, status: Category, first: bool)
    requires IsStatus(status) && !hdu.kind.OtherKind? && !(hdu.kind.BintableKind? && first)
    ensures IsInstance(TritsOf(hdu, status, first), ForClass(target)) <==> CastsTo(hdu.kind, target)
  {
    var c := TritsOf(hdu, status, first);
    assert c[PRIMARY_EXT] == if first then First else Second;
    assert c[IMAGE_BINTABLE] == if hdu.kind.BintableKind? then Second else First;
    match target
    case AnyClass =>
      AnyIsTop(c);
    case ImageClass =>
      InstanceIsRefinement(c, Image());
      assert Image()[IMAGE_BINTABLE] == First;
    case BintableClass =>
      InstanceIsRefinement(c, Bintable());
      assert Bintable()[IMAGE_BINTABLE] == Second && Bintable()[PRIMARY_EXT] == Second;
  }

  /** Without accepted categories, a loop over binary tables raises an exception at an image. */
  lemma ClassIsLost(image: FileHdu, status: Category)
    requires image.kind.ImageKind?
    ensures Constrain(Filter([], []), ForClass(BintableClass)) == Some(Filter([], []))
    ensures BreaksAt([image], [status], Filter([], []), BintableClass, 0)
  {
    assert Constrain(Filter([], []), ForClass(BintableClass)).value.accept == [];
  }

  lemma ClassAccepts(filter: Filter, model: Category, c: Category)
    requires Constrain(filter, model).Some?
    ensures Accepts(Constrain(filter, model).value, c) <==> Wanted(filter, model, c)
  {
    if filter.accept == [] {
      assert Constrain(filter, model).value == filter;
    } else {
      ConstrainedAccepts(filter, model, c);
    }
  }

  /** An exception is raised exactly at HDUs which are neither images nor binary tables. */
  lemma MarkMeaning(hdus: seq<FileHdu>, statuses: seq<Category>, filter: Filter, model: Category, i: int)
    requires |hdus| == |statuses| && 0 <= i < |hdus| && hdus[0].kind.ImageKind? && IsStatus(statuses[i])
    requires Constrain(filter, model).Some?
    ensures MarkOf(hdus, statuses, Constrain(filter, model).value, i) ==
      if hdus[i].kind.OtherKind? then Raise
      else if Wanted(filter, model, TritsOf(hdus[i], statuses[i], i == 0)) then Yield else Skip
  {
    if !hdus[i].kind.OtherKind? {
      CategoryIsDefined(hdus[i], statuses[i], i == 0);
      ClassAccepts(filter, model, TritsOf(hdus[i], statuses[i], i == 0));
    }
  }

  /** The marks for the HDUs of a class accepted by a filter. */
  ghost predicate AreClassMarks(
      marks: seq<Mark>, hdus: seq<FileHdu>, statuses: seq<Category>, filter: Filter, model: Category)
  {
    && Constrain(filter, model).Some? && AreMarks(marks, hdus, statuses, Constrain(filter, model).value)
    && hdus != [] && hdus[0].kind.ImageKind? && forall i :: 0 <= i < |hdus| ==> IsStatus(statuses[i])
  }

  lemma RaisedIsOther(
      marks: seq<Mark>, hdus: seq<FileHdu>, statuses: seq<Category>, filter: Filter, model: Category, i: int)
    requires AreClassMarks(marks, hdus, statuses, filter, model) && 0 <= i < |hdus|
    ensures marks[i] == Raise <==> hdus[i].kind.OtherKind?
    ensures marks[i] == Yield <==>
      !hdus[i].kind.OtherKind? && Wanted(filter, model, TritsOf(hdus[i], statuses[i], i == 0))
  {
    assert marks[i] == MarkOf(hdus, statuses, Constrain(filter, model).value, i);
    MarkMeaning(hdus, statuses, filter, model, i);
  }

  /** The marks after the cast tell what is selected and what breaks the loop. */
  lemma CastMeaning(
      marks: seq<Mark>, hdus: seq<FileHdu>, statuses: seq<Category>, filter: Filter, target: HduClass, i: int)
    requires AreClassMarks(marks, hdus, statuses, filter, ForClass(target)) && 0 <= i < |hdus|
    ensures Cast(marks, hdus, target)[i] == Raise <==> BreaksAt(hdus, statuses, filter, target, i)
    ensures Cast(marks, hdus, target)[i] == Yield <==>
      && !BreaksAt(hdus, statuses, filter, target, i)
      && Wanted(filter, ForClass(target), TritsOf(hdus[i], statuses[i], i == 0))
  {
    RaisedIsOther(marks, hdus, statuses, filter, ForClass(target), i);
  }

  /** What is yielded is what is selected. */
  lemma YieldedIsSelected(
      marks: seq<Mark>, hdus: seq<FileHdu>, statuses: seq<Category>, filter: Filter, target: HduClass, j: int)
    requires AreClassMarks(marks, hdus, statuses, filter, ForClass(target))
    ensures j in YieldedFrom(Cast(marks, hdus, target), 0) <==> SelectedAt(hdus, statuses, filter, target, j)
  {
    var cast := Cast(marks, hdus, target);
    YieldedMembers(cast, j);
    forall k | 0 <= k < |hdus| ensures cast[k] == Raise <==> BreaksAt(hdus, statuses, filter, target, k) {
      CastMeaning(marks, hdus, statuses, filter, target, k);
    }
    if 0 <= j < |hdus| {
      CastMeaning(marks, hdus, statuses, filter, target, j);
    }
  }

  /** The selected HDUs, in ascending order and once each, all of the class. */
  ghost predicate AreSelected(
      yielded: seq<int>, hdus: seq<FileHdu>, statuses: seq<Category>, filter: Filter, target: HduClass)
    requires |hdus| == |statuses|
  {
    && (forall j :: j in yielded <==> SelectedAt(hdus, statuses, filter, target, j))
    && (forall a, b :: 0 <= a < b < |yielded| ==> yielded[a] < yielded[b])
  }

  /** Some HDU raises an exception. */
  ghost predicate Breaks(hdus: seq<FileHdu>, statuses: seq<Category>, filter: Filter, target: HduClass)
    requires |hdus| == |statuses|
  {
    exists i :: BreaksAt(hdus, statuses, filter, target, i)
  }

  lemma AllYieldedAreSelected(
      marks: seq<Mark>, hdus: seq<FileHdu>, statuses: seq<Category>, filter: Filter, target: HduClass)
    requires AreClassMarks(marks, hdus, statuses, filter, ForClass(target))
    ensures AreSelected(YieldedFrom(Cast(marks, hdus, target), 0), hdus, statuses, filter, target)
    ensures Raise in Cast(marks, hdus, target) <==> Breaks(hdus, statuses, filter, target)
  {
    var cast := Cast(marks, hdus, target);
    var yielded := YieldedFrom(cast, 0);
    forall j ensures j in yielded <==> SelectedAt(hdus, statuses, filter, target, j) {
      YieldedIsSelected(marks, hdus, statuses, filter, target, j);
    }
    forall a, b | 0 <= a < b < |yielded| ensures yielded[a] < yielded[b] {
      YieldedAscend(cast, 0, a, b);
    }
    forall k | 0 <= k < |hdus| ensures cast[k] == Raise <==> BreaksAt(hdus, statuses, filter, target, k) {
      CastMeaning(marks, hdus, statuses, filter, target, k);
    }
  }

  /** All the HDUs have the kind of an image or of a binary table. */
  ghost predicate AllReadable(hdus: seq<FileHdu>)
  {
    forall i :: 0 <= i < |hdus| ==> !hdus[i].kind.OtherKind?
  }

  /** The numbers are those of HDUs of the class. */
  ghost predicate AreOfClass(yielded: seq<int>, hdus: seq<FileHdu>, target: HduClass)
  {
    forall j :: j in yielded ==> 0 <= j < |hdus| && CastsTo(hdus[j].kind, target)
  }

  /** Selected HDUs are of the class; with accepted categories, only HDUs of no class raise an exception. */
  lemma SelectedAreOfClass(
      yielded: seq<int>, hdus: seq<FileHdu>, statuses: seq<Category>, filter: Filter, target: HduClass)
    requires |hdus| == |statuses| && AreSelected(yielded, hdus, statuses, filter, target)
    ensures AreOfClass(yielded, hdus, target)
    ensures filter.accept != [] ==> (Breaks(hdus, statuses, filter, target) <==> !AllReadable(hdus))
  {
    forall j | j in yielded ensures 0 <= j < |hdus| && CastsTo(hdus[j].kind, target) {
      assert SelectedAt(hdus, statuses, filter, target, j);
      assert !BreaksAt(hdus, statuses, filter, target, j);
    }
    if filter.accept != [] {
      forall i | 0 <= i < |hdus|
        ensures BreaksAt(hdus, statuses, filter, target, i) <==> hdus[i].kind.OtherKind?
      {
        BreaksOnlyAtOthers(hdus, statuses, filter, target, i);
      }
    }
  }

  lemma BreaksOnlyAtOthers(hdus: seq<FileHdu>, statuses: seq<Category>, filter: Filter, target: HduClass, i: int)
    requires |hdus| == |statuses| && 0 <= i < |hdus| && filter.accept != []
    ensures BreaksAt(hdus, statuses, filter, target, i) <==> hdus[i].kind.OtherKind?
  {
    if !hdus[i].kind.OtherKind? && Wanted(filter, ForClass(target), TritsOf(hdus[i], statuses[i], i == 0)) {
      WantedIsOfClass(filter, target, hdus[i], statuses[i], i == 0);
    }
  }

  /** Loop over the HDUs of a class accepted by a filter, given the statuses before the loop. */
  method LoopOver(f: MefFile, filter: Filter, target: HduClass, ghost statuses: seq<Category>)
    returns (ok: bool, yielded: seq<int>)
    requires f.Valid() && StatusesFrom(f.handles, statuses, 0)
    modifies f`current, f`handles, f`made, f.made`status
    ensures f.Valid() && f.hdus == old(f.hdus) && |statuses| == |f.hdus|
    ensures ok <==> Constrain(filter, ForClass(target)).Some? && !Breaks(f.hdus, statuses, filter, target)
    ensures if Constrain(filter, ForClass(target)).Some? then AreSelected(yielded, f.hdus, statuses, filter, target)
            else yielded == []
    ensures AreOfClass(yielded, f.hdus, target)
    ensures filter.accept != [] ==> (ok <==> Constrain(filter, ForClass(target)).Some? && AllReadable(f.hdus))
  {
    var constrained := Constrain(filter, ForClass(target));
    if constrained.None? {
      return false, [];
    }
    ghost var marks := Marks(f.hdus, statuses, constrained.value);
    forall i | 0 <= i < |f.hdus| ensures IsStatus(statuses[i]) {
      assert Linked(f.handles[i], f.hdus[i], i);
    }
    AllYieldedAreSelected(marks, f.hdus, statuses, filter, target);
    SelectedAreOfClass(YieldedFrom(Cast(marks, f.hdus, target), 0), f.hdus, statuses, filter, target);
    ok, yielded := FilteredLoop(f, constrained.value, target, statuses, marks);
  }
}
