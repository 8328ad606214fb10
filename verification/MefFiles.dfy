/**
 The HDU handles of a multi-extension file, kept in step with the HDUs of the file.
 */
module MefFiles {

  import opened Wrappers
  import opened HduCategories

  datatype Kind = ImageKind | BintableKind | OtherKind

  /** An HDU of the file; `id` tells HDUs apart whatever their index. */
  datatype FileHdu = FileHdu(id: int, kind: Kind, content: Content)

  /** The name, the records of the user, the data and their type; `values` stand for pixels or rows. */
  datatype Content = Content(
    name: string, records: map<string, string>, values: seq<int>, floating: bool, compressed: bool)

  /** The contents of an image once overwritten with those of another one. */
  function Assigned(lhs: Content, rhs: Content): (r: Content)
  {
    lhs.(name := rhs.name, records := lhs.records + rhs.records, values := rhs.values, floating := rhs.floating)
  }

  /**
   The first HDU after it was overwritten with the next one: still the first one, as compressed as it was, with the
   name, the values and the type of the next one, and its records besides those of the first one that it has not.
   */
  ghost predicate IsOverwritten(now: FileHdu, first: FileHdu, next: FileHdu)
  {
    && now.id == first.id && now.kind == first.kind
    && now.content.name == next.content.name && now.content.values == next.content.values
    && now.content.floating == next.content.floating && now.content.compressed == first.content.compressed
    && (forall k :: k in now.content.records <==> k in first.content.records || k in next.content.records)
    && (forall k :: k in next.content.records ==> now.content.records[k] == next.content.records[k])
    && (forall k :: k in first.content.records && k !in next.content.records ==>
      now.content.records[k] == first.content.records[k])
  }

  lemma AssignedIsOverwritten(first: FileHdu, next: FileHdu)
    ensures IsOverwritten(first.(content := Assigned(first.content, next.content)), first, next)
  {
  }

  // Category of an HDU

  function And(a: Option<Category>, b: Category): (r: Option<Category>)
  {
    match a
    case None => None
    case Some(c) => Restrict(c, b)
  }

  function TypeOf(kind: Kind): (r: Category)
  {
    if kind.BintableKind? then Bintable() else Image()
  }

  /** The category built from the type, the status `s` once touched, the place and the size. */
  function WithData(hdu: FileHdu, s: Category, first: bool): (r: Option<Category>)
  {
    And(And(Restrict(TypeOf(hdu.kind), s), if first then Primary() else Ext()),
        if hdu.content.values == [] then Metadata() else Data())
  }

  /** The whole category. */
  function Built(hdu: FileHdu, s: Category, first: bool): (r: Option<Category>)
  {
    var c := WithData(hdu, s, first);
    if hdu.kind.BintableKind? then c else WithImage(c, hdu.content.floating, hdu.content.compressed)
  }

  function WithImage(c: Option<Category>, floating: bool, compressed: bool): (r: Option<Category>)
  {
    And(And(c, if floating then FloatImage() else IntImage()), if compressed then CompressedImageExt() else RawImage())
  }

  /** The category read from an HDU of given status; `first` is for the first HDU. */
  function CategoryOf(hdu: FileHdu, status: Category, first: bool): (r: Option<Category>)
    requires !hdu.kind.OtherKind?
  {
    Built(hdu, AfterTouch(status), first)
  }

  /** The trits of the category, position by position. */
  ghost function Trits(hdu: FileHdu, s: Category, first: bool): (r: Category)
  {
    [if first then First else Second,
     if hdu.content.values == [] then First else Second,
     if hdu.kind.BintableKind? then Second else First,
     if hdu.kind.BintableKind? then Unconstrained else if hdu.content.floating then Second else First,
     if hdu.kind.BintableKind? then Unconstrained else if hdu.content.compressed then Second else First,
     s[UNTOUCHED_TOUCHED], s[EXISTED_CREATED], s[READ_EDITED]]
  }

  ghost function TritsOf(hdu: FileHdu, status: Category, first: bool): (r: Category)
  {
    Trits(hdu, AfterTouch(status), first)
  }

  /** Type and status: statuses only constrain the three last trits. */
  lemma TypeAndStatus(kind: Kind, status: Category)
    requires IsStatus(status)
    ensures Restrict(TypeOf(kind), status) == Some(
      [if kind.BintableKind? then Second else Unconstrained, Unconstrained,
       if kind.BintableKind? then Second else First, Unconstrained, Unconstrained,
       status[UNTOUCHED_TOUCHED], status[EXISTED_CREATED], status[READ_EDITED]])
  {
    var t := TypeOf(kind);
    assert forall i :: 0 <= i < 5 ==> status[i] == Unconstrained;
    assert forall i :: 3 <= i < TRIT_COUNT ==> t[i] == Unconstrained;
    assert Compatible(t, status);
    assert Restrict(t, status).value ==
      [if kind.BintableKind? then Second else Unconstrained, Unconstrained,
       if kind.BintableKind? then Second else First, Unconstrained, Unconstrained,
       status[UNTOUCHED_TOUCHED], status[EXISTED_CREATED], status[READ_EDITED]];
  }

  /** Type, status and place. */
  lemma PlaceIsDefined(kind: Kind, s: Category, first: bool)
    requires IsStatus(s)
    ensures And(Restrict(TypeOf(kind), s), if first then Primary() else Ext()) ==
      if kind.BintableKind? && first then None
      else Some([if first then First else Second, Unconstrained, if kind.BintableKind? then Second else First,
                 Unconstrained, Unconstrained, s[UNTOUCHED_TOUCHED], s[EXISTED_CREATED], s[READ_EDITED]])
  {
    TypeAndStatus(kind, s);
    var a := Restrict(TypeOf(kind), s).value;
    var expected := [if first then First else Second, Unconstrained, if kind.BintableKind? then Second else First,
                     Unconstrained, Unconstrained, s[UNTOUCHED_TOUCHED], s[EXISTED_CREATED], s[READ_EDITED]];
    if first {
      RestrictDouble(a, IMAGE_BINTABLE, First, PRIMARY_EXT, First);
      assert kind.BintableKind? || a[IMAGE_BINTABLE := First][PRIMARY_EXT := First] == expected;
    } else {
      RestrictSingle(a, PRIMARY_EXT, Second);
      assert a[PRIMARY_EXT := Second] == expected;
    }
  }

  lemma DataIsDefined(p: Category, empty: bool)
    requires p[METADATA_DATA] == Unconstrained
    ensures Restrict(p, if empty then Metadata() else Data()) ==
      Some(p[METADATA_DATA := if empty then First else Second])
  {
    RestrictSingle(p, METADATA_DATA, if empty then First else Second);
  }

  lemma ImageIsDefined(d: Category, floating: bool, compressed: bool)
    requires d[IMAGE_BINTABLE] == First && d[INT_FLOAT] == Unconstrained && d[RAW_COMPRESSED] == Unconstrained
    ensures
      var f, c := if floating then Second else First, if compressed then Second else First;
      WithImage(Some(d), floating, compressed) == Some(d[INT_FLOAT := f][RAW_COMPRESSED := c])
  {
    var f, c := if floating then Second else First, if compressed then Second else First;
    RestrictDouble(d, IMAGE_BINTABLE, First, INT_FLOAT, f);
    var g := d[INT_FLOAT := f];
    assert d[IMAGE_BINTABLE := First] == d;
    RestrictDouble(g, IMAGE_BINTABLE, First, RAW_COMPRESSED, c);
    assert g[IMAGE_BINTABLE := First] == g;
  }

  lemma FilledData(a: Trit, b: Trit, x: Trit, y: Trit, z: Trit, m: Trit)
    ensures [a, Unconstrained, b, Unconstrained, Unconstrained, x, y, z][METADATA_DATA := m]
         == [a, m, b, Unconstrained, Unconstrained, x, y, z]
  {
  }

  lemma FilledImage(a: Trit, b: Trit, x: Trit, y: Trit, z: Trit, m: Trit, f: Trit, c: Trit)
    ensures [a, m, b, Unconstrained, Unconstrained, x, y, z][INT_FLOAT := f][RAW_COMPRESSED := c]
         == [a, m, b, f, c, x, y, z]
  {
  }

  lemma WithDataIsDefined(hdu: FileHdu, s: Category, first: bool)
    requires IsStatus(s)
    ensures WithData(hdu, s, first) ==
      if hdu.kind.BintableKind? && first then None
      else Some([if first then First else Second, if hdu.content.values == [] then First else Second,
                 if hdu.kind.BintableKind? then Second else First, Unconstrained, Unconstrained,
                 s[UNTOUCHED_TOUCHED], s[EXISTED_CREATED], s[READ_EDITED]])
  {
    PlaceIsDefined(hdu.kind, s, first);
    if !(hdu.kind.BintableKind? && first) {
      var a, b := if first then First else Second, if hdu.kind.BintableKind? then Second else First;
      var x, y, z := s[UNTOUCHED_TOUCHED], s[EXISTED_CREATED], s[READ_EDITED];
      FilledData(a, b, x, y, z, if hdu.content.values == [] then First else Second);
      DataIsDefined([a, Unconstrained, b, Unconstrained, Unconstrained, x, y, z], hdu.content.values == []);
    }
  }

  lemma ImageTrits(a: Trit, m: Trit, x: Trit, y: Trit, z: Trit, floating: bool, compressed: bool)
    ensures WithImage(Some([a, m, First, Unconstrained, Unconstrained, x, y, z]), floating, compressed) ==
      Some([a, m, First, if floating then Second else First, if compressed then Second else First, x, y, z])
  {
    FilledImage(a, First, x, y, z, m, if floating then Second else First, if compressed then Second else First);
    ImageIsDefined([a, m, First, Unconstrained, Unconstrained, x, y, z], floating, compressed);
  }

  lemma BuiltIsDefined(hdu: FileHdu, s: Category, first: bool)
    requires IsStatus(s)
    ensures Built(hdu, s, first) == if hdu.kind.BintableKind? && first then None else Some(Trits(hdu, s, first))
  {
    WithDataIsDefined(hdu, s, first);
    if !hdu.kind.BintableKind? {
      ImageTrits(if first then First else Second, if hdu.content.values == [] then First else Second,
                 s[UNTOUCHED_TOUCHED], s[EXISTED_CREATED], s[READ_EDITED],
                 hdu.content.floating, hdu.content.compressed);
    }
  }

  /** Reading the category raises an exception exactly for a binary table as first HDU. */
  lemma CategoryIsDefined(hdu: FileHdu, status: Category, first: bool)
    requires IsStatus(status) && !hdu.kind.OtherKind?
    ensures CategoryOf(hdu, status, first).None? <==> hdu.kind.BintableKind? && first
    ensures CategoryOf(hdu, status, first).Some? ==> CategoryOf(hdu, status, first).value == TritsOf(hdu, status, first)
  {
    StatusStepStays(status);
    BuiltIsDefined(hdu, AfterTouch(status), first);
  }

  /** What `ReadCategory` needs: there is a category, which does not change when the HDU is touched. */
  lemma CategoryExists(hdu: FileHdu, status: Category, first: bool)
    requires IsStatus(status) && !hdu.kind.OtherKind? && !(hdu.kind.BintableKind? && first)
    ensures CategoryOf(hdu, status, first).Some?
    ensures CategoryOf(hdu, AfterTouch(status), first) == CategoryOf(hdu, status, first)
  {
    CategoryIsDefined(hdu, status, first);
    TouchTwice(status);
  }

  lemma TouchTwice(status: Category)
    ensures AfterTouch(AfterTouch(status)) == AfterTouch(status)
  {
  }

  // Handles

  /** The handle of an HDU; `id` is the HDU that it was made for. */
  class Hdu {
    ghost const id: int
    const kind: Kind
    var cfitsioIndex: int
    var status: Category

    constructor (id: int, kind: Kind, index: int, status: Category)
      ensures this.id == id && this.kind == kind && cfitsioIndex == index + 1 && this.status == status
    {
      this.id := id;
      this.kind := kind;
      this.cfitsioIndex := index + 1;
      this.status := status;
    }
  }

  /** A handle, if there is one, is that of the HDU number `i`. */
  ghost predicate Linked(handle: Hdu?, hdu: FileHdu, i: int)
    reads handle
  {
    handle != null ==>
      && handle.cfitsioIndex == i + 1
      && handle.id == hdu.id
      && handle.kind == hdu.kind && !hdu.kind.OtherKind?
      && IsStatus(handle.status)
  }

  /** Statuses of edited and created HDUs do not change. */
  twostate predicate EditedStay(hdus: set<Hdu>)
    reads hdus
  {
    forall h :: h in hdus && IsEdited(old(h.status)) ==> h.status == old(h.status)
  }

  /** The statuses of the HDUs from `k` on; an HDU is untouched as long as it has no handle. */
  ghost predicate StatusesFrom(handles: seq<Hdu?>, statuses: seq<Category>, k: int)
    reads handles
  {
    && |statuses| == |handles|
    && forall i :: 0 <= k <= i < |handles| ==>
      statuses[i] == if handles[i] == null then Untouched() else handles[i].status
  }

  lemma RemovedStatuses(handles: seq<Hdu?>, statuses: seq<Category>, i: int)
    requires StatusesFrom(handles, statuses, 0) && 0 <= i < |handles|
    ensures StatusesFrom(handles[..i] + handles[i + 1..], statuses[..i] + statuses[i + 1..], 0)
  {
  }

  lemma FirstStatuses(handles: seq<Hdu?>, statuses: seq<Category>)
    requires StatusesFrom(handles, statuses, 2) && |handles| >= 2 && handles[0] != null
    ensures StatusesFrom([handles[0]] + handles[2..], [handles[0].status] + statuses[2..], 0)
  {
  }

  /** No handle is replaced. */
  ghost predicate SlotsKept(before: seq<Hdu?>, after: seq<Hdu?>)
  {
    |before| == |after| && forall i :: 0 <= i < |before| ==> before[i] == null || after[i] == before[i]
  }

  /**
   A file: its HDUs (managed by CFITSIO, 1-based, with a current one), and one slot per HDU for a handle
   which is made at first access.
   */
  class MefFile {
    var hdus: seq<FileHdu>
    var current: int
    var handles: seq<Hdu?>
    var nextId: int
    ghost var made: set<Hdu>

    ghost predicate Valid()
      reads this, handles
    {
      && |handles| == |hdus| >= 1 && 1 <= current <= |hdus|
      && hdus[0].kind.ImageKind?
      && (forall i :: 0 <= i < |hdus| ==> Linked(handles[i], hdus[i], i))
      && (forall i :: 0 <= i < |handles| ==> handles[i] == null || handles[i] in made)
    }

    /** Handles are told apart by their index. */
    lemma HandlesDiffer(i: int, j: int)
      requires Valid() && 0 <= i < |handles| && 0 <= j < |handles| && i != j && handles[i] != null
      ensures handles[i] != handles[j]
    {
      assert Linked(handles[i], hdus[i], i) && Linked(handles[j], hdus[j], j);
    }

    constructor (hdus: seq<FileHdu>, nextId: int)
      requires hdus != [] && hdus[0].kind.ImageKind?
      ensures Valid() && this.hdus == hdus && this.nextId == nextId && made == {}
      ensures forall i :: 0 <= i < |handles| ==> handles[i] == null
    {
      this.hdus := hdus;
      this.current := 1;
      this.handles := seq(|hdus|, _ => null);
      this.nextId := nextId;
      this.made := {};
    }

    function HduCount(): (r: int)
      reads this
    {
      |handles|
    }

    /** The handle at an index, backward if it is negative; none if there is no such image or binary table. */
    method Access(at: int) returns (hdu: Hdu?)
      requires Valid()
      modifies this`current, this`handles, this`made
      ensures Valid() && hdus == old(hdus) && old(made) <= made && fresh(made - old(made))
      ensures var i := if at < 0 then at + |hdus| else at;
        if 0 <= i < |hdus| && !hdus[i].kind.OtherKind?
        then
          && hdu != null && handles == old(handles)[i := hdu] && current == i + 1
          && (old(handles[i]) != null ==> hdu == old(handles[i]))
          && (old(handles[i]) == null ==> fresh(hdu) && hdu.status == Untouched())
        else hdu == null && handles == old(handles)
    {
      var index := at;
      if index < 0 {
        index := index + HduCount();
      }
      if !(0 <= index < |hdus|) {
        return null;
      }
      current := index + 1;
      if hdus[index].kind.OtherKind? {
        return null;
      }
      assert Linked(handles[index], hdus[index], index);
      if handles[index] == null {
        hdu := new Hdu(hdus[index].id, hdus[index].kind, index, Untouched());
        handles := handles[index := hdu];
        made := made + {hdu};
      }
      return handles[index];
    }

    /** Append an image or a binary table. */
    method Append(kind: Kind, content: Content) returns (hdu: Hdu)
      requires Valid() && !kind.OtherKind?
      modifies this
      ensures Valid() && fresh(hdu) && made == old(made) + {hdu} && nextId == old(nextId) + 1
      ensures hdus == old(hdus) + [FileHdu(old(nextId), kind, content)]
      ensures handles == old(handles) + [hdu]
      ensures hdu.status == Created() && hdu.id == old(nextId)
    {
      hdus := hdus + [FileHdu(nextId, kind, content)];
      current := |hdus|;
      hdu := new Hdu(nextId, kind, |handles|, Created());
      handles := handles + [hdu];
      made := made + {hdu};
      nextId := nextId + 1;
    }

    /** Make the HDU current, for reading. */
    method Touch(hdu: Hdu, ghost i: int)
      requires Valid() && 0 <= i < |handles| && handles[i] == hdu
      modifies this`current, hdu`status
      ensures Valid() && current == i + 1 && hdu.status == AfterTouch(old(hdu.status))
    {
      assert Linked(handles[i], hdus[i], i);
      current := hdu.cfitsioIndex;
      if hdu.status == Untouched() {
        hdu.status := Touched();
      }
    }

    /** Make the HDU current, for writing. */
    method Edit(hdu: Hdu, ghost i: int)
      requires Valid() && 0 <= i < |handles| && handles[i] == hdu
      modifies this`current, hdu`status
      ensures Valid() && current == i + 1 && Some(hdu.status) == AfterEdit(old(hdu.status))
    {
      assert Linked(handles[i], hdus[i], i);
      StatusStepStays(hdu.status);
      Touch(hdu, i);
      hdu.status := Restrict(hdu.status, Edited()).value;
    }

    /** Read the category.  Reading the shape of an image goes through `Edit`. */
    method ReadCategory(hdu: Hdu, ghost i: int) returns (category: Category)
      requires Valid() && 0 <= i < |handles| && handles[i] == hdu
      modifies this`current, hdu`status
      ensures Valid() && current == i + 1
      ensures Some(category) == CategoryOf(hdus[i], old(hdu.status), i == 0)
      ensures Some(hdu.status) ==
        if hdu.kind.ImageKind? then AfterEdit(old(hdu.status)) else Some(AfterTouch(old(hdu.status)))
    {
      assert Linked(handles[i], hdus[i], i);
      CategoryExists(hdus[i], hdu.status, i == 0);
      TouchThenEdit(hdu.status);
      Touch(hdu, i);
      category := CategoryOf(hdus[hdu.cfitsioIndex - 1], hdu.status, hdu.cfitsioIndex == 1).value;
      if hdu.kind.ImageKind? {
        Edit(hdu, i);
      }
    }

    /** Shift the handles from `index` on, which are those of the previous HDUs. */
    method Renumber(index: int)
      requires 0 <= index <= |handles| == |hdus|
      requires forall l :: 0 <= l < index ==> Linked(handles[l], hdus[l], l)
      requires forall l :: index <= l < |handles| ==> handles[l] != null && Linked(handles[l], hdus[l], l + 1)
      modifies handles`cfitsioIndex
      ensures forall l :: 0 <= l < |handles| ==> Linked(handles[l], hdus[l], l)
    {
      for j := index to |handles|
        invariant forall l :: 0 <= l < j ==> Linked(handles[l], hdus[l], l)
        invariant forall l :: j <= l < |handles| ==> handles[l] != null && Linked(handles[l], hdus[l], l + 1)
      {
        forall l | 0 <= l < |handles| && l != j ensures handles[l] != handles[j] {
          assert Linked(handles[l], hdus[l], if l < j then l else l + 1);
        }
        handles[j].cfitsioIndex := handles[j].cfitsioIndex - 1;
      }
    }

    /** Remove an HDU after the first; the handles after it must be loaded. */
    method RemoveExtension(index: int)
      requires Valid() && 1 <= index < |hdus|
      requires forall j :: index < j < |handles| ==> handles[j] != null
      modifies this`hdus, this`current, this`handles, handles`cfitsioIndex
      ensures Valid()
      ensures hdus == old(hdus)[..index] + old(hdus)[index + 1..]
      ensures handles == old(handles)[..index] + old(handles)[index + 1..]
    {
      hdus := hdus[..index] + hdus[index + 1..];
      current := if index < |hdus| then index + 1 else |hdus|;
      handles := handles[..index] + handles[index + 1..];
      Renumber(index);
    }

    /** Access the first and next HDUs, which are edited, the latter because its shape is read. */
    method EditFirstTwo(ghost statuses: seq<Category>) returns (ok: bool)
      requires Valid() && StatusesFrom(handles, statuses, 0)
      modifies this`current, this`handles, this`made, made`status
      ensures Valid() && hdus == old(hdus) && old(made) <= made && fresh(made - old(made)) && EditedStay(old(made))
      ensures ok <==> |hdus| > 1 && hdus[1].kind.ImageKind?
      ensures SlotsKept(old(handles), handles) && (ok ==> handles[0] != null && handles[2..] == old(handles)[2..])
      ensures ok ==> handles[1] != null && IsEdited(handles[0].status) && IsEdited(handles[1].status)
      ensures StatusesFrom(handles, statuses, if ok then 2 else 0)
      ensures ok ==> handles[0].status == EditedStatus(statuses[0])
    {
      var next := Access(1);
      if next == null || !next.kind.ImageKind? {
        return false;
      }
      var first := Access(0);
      HandlesDiffer(0, 1);
      EditOnce(next, 1);
      EditOnce(first, 0);
      return true;
    }

    /** `Edit`, which gives an edited status and keeps such a status. */
    method EditOnce(hdu: Hdu, ghost i: int)
      requires Valid() && 0 <= i < |handles| && handles[i] == hdu
      modifies this`current, hdu`status
      ensures Valid() && current == i + 1 && IsEdited(hdu.status) && hdu.status == EditedStatus(old(hdu.status))
      ensures IsEdited(old(hdu.status)) ==> hdu.status == old(hdu.status)
    {
      assert Linked(handles[i], hdus[i], i);
      EditGivesEdited(hdu.status);
      if IsEdited(hdu.status) {
        EditedStays(hdu.status);
      }
      Edit(hdu, i);
    }

    /** Overwrite the first HDU with the next one. */
    method OverwriteFirst(ghost statuses: seq<Category>) returns (ok: bool)
      requires Valid() && StatusesFrom(handles, statuses, 0)
      modifies this, made`status
      ensures Valid() && old(made) <= made && fresh(made - old(made)) && nextId == old(nextId) && EditedStay(old(made))
      ensures ok <==> |old(hdus)| > 1 && old(hdus)[1].kind.ImageKind?
      ensures SlotsKept(old(handles), handles) && (ok ==> handles[0] != null && handles[2..] == old(handles)[2..])
      ensures ok ==> handles[1] != null && IsEdited(handles[0].status) && IsEdited(handles[1].status)
      ensures hdus == if !ok then old(hdus)
        else old(hdus)[0 := old(hdus)[0].(content := Assigned(old(hdus)[0].content, old(hdus)[1].content))]
      ensures ok ==> IsOverwritten(hdus[0], old(hdus)[0], old(hdus)[1])
      ensures StatusesFrom(handles, statuses, if ok then 2 else 0)
      ensures ok ==> handles[0].status == EditedStatus(statuses[0])
    {
      ok := EditFirstTwo(statuses);
      if ok {
        AssignedIsOverwritten(hdus[0], hdus[1]);
        hdus := hdus[0 := hdus[0].(content := Assigned(hdus[0].content, hdus[1].content))];
      }
    }

    /** Remove the second HDU; `statuses` are those after it. */
    method RemoveSecond(ghost statuses: seq<Category>)
      requires Valid() && |hdus| > 1 && handles[0] != null && forall j :: 1 < j < |handles| ==> handles[j] != null
      requires StatusesFrom(handles, statuses, 2)
      modifies this`hdus, this`current, this`handles, handles`cfitsioIndex
      ensures Valid() && hdus == [old(hdus)[0]] + old(hdus)[2..]
      ensures handles == [old(handles)[0]] + old(handles)[2..]
      ensures StatusesFrom(handles, [handles[0].status] + statuses[2..], 0)
    {
      ghost var slots := handles;
      RemoveExtension(1);
      FirstStatuses(slots, statuses);
      assert handles == [slots[0]] + slots[2..];
    }

    /** Overwrite the first HDU, which cannot be removed, with the next one, which is removed instead. */
    method RemoveFirst(ghost statuses: seq<Category>) returns (ok: bool)
      requires Valid() && StatusesFrom(handles, statuses, 0)
      requires forall j :: 1 < j < |handles| ==> handles[j] != null
      modifies this, made
      ensures Valid() && old(made) <= made && fresh(made - old(made)) && nextId == old(nextId) && EditedStay(old(made))
      ensures ok <==> |old(hdus)| > 1 && old(hdus)[1].kind.ImageKind?
      ensures !ok ==> hdus == old(hdus) && SlotsKept(old(handles), handles)
      ensures ok ==>
        hdus == [old(hdus)[0].(content := Assigned(old(hdus)[0].content, old(hdus)[1].content))] + old(hdus)[2..]
      ensures ok ==> IsOverwritten(hdus[0], old(hdus)[0], old(hdus)[1]) && hdus[1..] == old(hdus)[2..]
      ensures ok ==> handles[0] != null && handles == [handles[0]] + old(handles)[2..]
      ensures ok && old(handles)[0] != null ==> handles[0] == old(handles)[0]
      ensures StatusesFrom(handles, if ok then [EditedStatus(statuses[0])] + statuses[2..] else statuses, 0)
    {
      ok := OverwriteFirst(statuses);
      if ok {
        RemoveSecond(statuses);
      }
    }

    /** Remove an HDU; the handles after it must be loaded. */
    method Remove(index: int, ghost statuses: seq<Category>) returns (ok: bool)
      requires Valid() && StatusesFrom(handles, statuses, 0)
      requires 0 <= index ==> forall j :: index < j < |handles| && 1 < j ==> handles[j] != null
      modifies this, made
      ensures Valid() && old(made) <= made && fresh(made - old(made)) && nextId == old(nextId) && EditedStay(old(made))
      ensures ok <==> (1 <= index < |old(hdus)|) || (index == 0 && |old(hdus)| > 1 && old(hdus)[1].kind.ImageKind?)
      ensures !ok ==> hdus == old(hdus) && SlotsKept(old(handles), handles)
      ensures ok && index > 0 ==> hdus == old(hdus)[..index] + old(hdus)[index + 1..]
      ensures ok && index > 0 ==> handles == old(handles)[..index] + old(handles)[index + 1..]
      ensures ok && index == 0 ==>
        hdus == [old(hdus)[0].(content := Assigned(old(hdus)[0].content, old(hdus)[1].content))] + old(hdus)[2..]
      ensures ok && index == 0 ==> IsOverwritten(hdus[0], old(hdus)[0], old(hdus)[1]) && hdus[1..] == old(hdus)[2..]
      ensures ok && index == 0 ==> handles[0] != null && handles == [handles[0]] + old(handles)[2..]
      ensures ok && index == 0 && old(handles)[0] != null ==> handles[0] == old(handles)[0]
      ensures !ok ==> StatusesFrom(handles, statuses, 0)
      ensures ok && index > 0 ==> StatusesFrom(handles, statuses[..index] + statuses[index + 1..], 0)
      ensures ok && index == 0 ==> StatusesFrom(handles, [EditedStatus(statuses[0])] + statuses[2..], 0)
    {
      if index == 0 {
        ok := RemoveFirst(statuses);
        return;
      }
      if !(1 <= index < |hdus|) {
        return false;
      }
      ghost var slots := handles;
      RemoveExtension(index);
      RemovedStatuses(slots, statuses, index);
      return true;
    }
  }
}
