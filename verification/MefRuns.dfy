/**
 Runs of operations on a file: handles keep denoting the same HDUs, and statuses are never lost.
 */
module MefRuns {

  import opened HduCategories
  import opened MefFiles

  datatype Operation =
    | AccessOperation(at: int)
    | TouchOperation(at: int)
    | EditOperation(at: int)
    | CategoryOperation(at: int)
    | AppendOperation(kind: Kind, content: Content)
    | RemoveOperation(at: int)

  /** The HDUs of a file and their statuses, without any handle. */
  datatype Listing = Listing(hdus: seq<FileHdu>, nextId: int, statuses: seq<Category>)

  predicate FirstCanGo(hdus: seq<FileHdu>)
  {
    |hdus| > 1 && hdus[1].kind.ImageKind?
  }

  function Removed(hdus: seq<FileHdu>, at: int): (r: seq<FileHdu>)
  {
    if 1 <= at < |hdus| then hdus[..at] + hdus[at + 1..]
    else if at == 0 && FirstCanGo(hdus) then
      [hdus[0].(content := Assigned(hdus[0].content, hdus[1].content))] + hdus[2..]
    else hdus
  }

  /** The statuses after a removal: the first HDU is edited if it is overwritten. */
  function StatusesLeft(hdus: seq<FileHdu>, statuses: seq<Category>, at: int): (r: seq<Category>)
    requires |hdus| == |statuses|
  {
    if 1 <= at < |hdus| then statuses[..at] + statuses[at + 1..]
    else if at == 0 && FirstCanGo(hdus) then [EditedStatus(statuses[0])] + statuses[2..]
    else statuses
  }

  /** The status of an HDU after it was used. */
  function UsedStatus(kind: Kind, status: Category, operation: Operation): (r: Category)
  {
    match operation
    case TouchOperation(_) => AfterTouch(status)
    case EditOperation(_) => EditedStatus(status)
    case CategoryOperation(_) => if kind.ImageKind? then EditedStatus(status) else AfterTouch(status)
    case _ => status
  }

  /** The statuses after an operation on the HDU at an index, backward if it is negative, if there is one. */
  function UsedStatuses(hdus: seq<FileHdu>, statuses: seq<Category>, at: int, operation: Operation): (r: seq<Category>)
    requires |hdus| == |statuses|
  {
    var i := if at < 0 then at + |hdus| else at;
    if 0 <= i < |hdus| && !hdus[i].kind.OtherKind? then
      statuses[i := UsedStatus(hdus[i].kind, statuses[i], operation)]
    else statuses
  }

  function Step(listing: Listing, operation: Operation): (r: Listing)
    requires |listing.hdus| == |listing.statuses|
    ensures |r.hdus| == |r.statuses|
  {
    var Listing(hdus, nextId, statuses) := listing;
    match operation
    case RemoveOperation(at) => Listing(Removed(hdus, at), nextId, StatusesLeft(hdus, statuses, at))
    case AppendOperation(kind, content) =>
      Listing(hdus + [FileHdu(nextId, kind, content)], nextId + 1, statuses + [Created()])
    case _ => Listing(hdus, nextId, UsedStatuses(hdus, statuses, operation.at, operation))
  }

  function StepAll(listing: Listing, operations: seq<Operation>): (r: Listing)
    requires |listing.hdus| == |listing.statuses|
    ensures |r.hdus| == |r.statuses|
  {
    if operations == [] then listing
    else Step(StepAll(listing, operations[..|operations| - 1]), operations[|operations| - 1])
  }

  /** The removal of the first HDU in the plain list, field by field. */
  lemma StepRemovesFirst(listing: Listing)
    requires |listing.hdus| == |listing.statuses|
    ensures var hdus, now := listing.hdus, Step(listing, RemoveOperation(0)).hdus;
      if |hdus| > 1 && hdus[1].kind.ImageKind? then
        |now| == |hdus| - 1 && IsOverwritten(now[0], hdus[0], hdus[1]) && now[1..] == hdus[2..]
      else now == hdus
  {
    if |listing.hdus| > 1 {
      AssignedIsOverwritten(listing.hdus[0], listing.hdus[1]);
    }
  }

  /** HDUs of a file are told apart, and from all those which will be appended. */
  ghost predicate Identified(hdus: seq<FileHdu>, nextId: int)
  {
    && (forall i :: 0 <= i < |hdus| ==> hdus[i].id < nextId)
    && (forall i, j :: 0 <= i < j < |hdus| ==> hdus[i].id != hdus[j].id)
  }

  /** An HDU comes from an HDU with the same handle, if that had one. */
  ghost predicate ComesFrom(hdus: seq<FileHdu>, slots: seq<Hdu?>, hdu: FileHdu, slot: Hdu?)
    requires |hdus| == |slots|
  {
    exists j :: 0 <= j < |hdus| && hdus[j].id == hdu.id && (slots[j] != null ==> slot == slots[j])
  }

  /** Each HDU after some operations is either new, or one from before with the same handle, if that had one. */
  ghost predicate Follows(before: seq<FileHdu>, slots: seq<Hdu?>, nextId: int, after: seq<FileHdu>, newSlots: seq<Hdu?>)
    requires |before| == |slots| && |after| == |newSlots|
  {
    forall k :: 0 <= k < |after| ==> after[k].id >= nextId || ComesFrom(before, slots, after[k], newSlots[k])
  }

  lemma FollowsAfter(a: seq<FileHdu>, s: seq<Hdu?>, n: int, b: seq<FileHdu>, t: seq<Hdu?>, m: int,
                     c: seq<FileHdu>, u: seq<Hdu?>)
    requires |a| == |s| && |b| == |t| && |c| == |u| && n <= m
    requires Follows(a, s, n, b, t) && Follows(b, t, m, c, u)
    ensures Follows(a, s, n, c, u)
  {
    forall k | 0 <= k < |c| && c[k].id < n ensures ComesFrom(a, s, c[k], u[k]) {
      assert ComesFrom(b, t, c[k], u[k]);
      var j :| 0 <= j < |b| && b[j].id == c[k].id && (t[j] != null ==> u[k] == t[j]);
      assert ComesFrom(a, s, b[j], t[j]);
    }
  }

  /** Making a handle, if there was none. */
  lemma FollowsAccess(hdus: seq<FileHdu>, slots: seq<Hdu?>, nextId: int, newSlots: seq<Hdu?>)
    requires |hdus| == |slots| == |newSlots|
    requires forall k :: 0 <= k < |hdus| ==> slots[k] == null || newSlots[k] == slots[k]
    ensures Follows(hdus, slots, nextId, hdus, newSlots)
  {
    forall k | 0 <= k < |hdus| ensures ComesFrom(hdus, slots, hdus[k], newSlots[k]) {
    }
  }

  lemma FollowsAppend(hdus: seq<FileHdu>, slots: seq<Hdu?>, nextId: int, hdu: FileHdu, slot: Hdu)
    requires |hdus| == |slots| && Identified(hdus, nextId) && hdu.id == nextId
    ensures Follows(hdus, slots, nextId, hdus + [hdu], slots + [slot])
    ensures Identified(hdus + [hdu], nextId + 1)
  {
    forall k | 0 <= k < |hdus| ensures ComesFrom(hdus, slots, hdus[k], slots[k]) {
    }
  }

  lemma FollowsRemoval(hdus: seq<FileHdu>, slots: seq<Hdu?>, nextId: int, i: int)
    requires |hdus| == |slots| && Identified(hdus, nextId) && 0 <= i < |hdus|
    ensures Follows(hdus, slots, nextId, hdus[..i] + hdus[i + 1..], slots[..i] + slots[i + 1..])
    ensures Identified(hdus[..i] + hdus[i + 1..], nextId)
  {
    var rest, left := hdus[..i] + hdus[i + 1..], slots[..i] + slots[i + 1..];
    forall k | 0 <= k < |rest| ensures ComesFrom(hdus, slots, rest[k], left[k]) {
      var j := if k < i then k else k + 1;
      assert rest[k] == hdus[j] && left[k] == slots[j];
    }
  }

  /** The first HDU takes the contents of the second one. */
  lemma FollowsFirstRemoval(hdus: seq<FileHdu>, slots: seq<Hdu?>, nextId: int, first: FileHdu, slot: Hdu)
    requires |hdus| == |slots| >= 2 && Identified(hdus, nextId) && first.id == hdus[0].id
    requires slots[0] != null ==> slot == slots[0]
    ensures Follows(hdus, slots, nextId, [first] + hdus[2..], [slot] + slots[2..])
    ensures Identified([first] + hdus[2..], nextId)
  {
    var rest, left := [first] + hdus[2..], [slot] + slots[2..];
    forall k | 0 <= k < |rest| ensures ComesFrom(hdus, slots, rest[k], left[k]) {
      var j := if k == 0 then 0 else k + 1;
      assert rest[k].id == hdus[j].id && (slots[j] != null ==> left[k] == slots[j]);
    }
  }

  /** The handles that an operation on a single HDU needs; removal needs all the later ones. */
  predicate Allowed(f: MefFile, operation: Operation)
    reads f
  {
    match operation
    case RemoveOperation(at) => 0 <= at ==> forall j :: at < j < |f.handles| && 1 < j ==> f.handles[j] != null
    case AppendOperation(kind, _) => !kind.OtherKind?
    case _ => true
  }

  method UseHandle(f: MefFile, hdu: Hdu, ghost i: int, operation: Operation)
    requires f.Valid() && 0 <= i < |f.handles| && f.handles[i] == hdu
    modifies f`current, hdu`status
    ensures f.Valid() && (IsEdited(old(hdu.status)) ==> hdu.status == old(hdu.status))
    ensures hdu.status == UsedStatus(f.hdus[i].kind, old(hdu.status), operation)
  {
    assert Linked(f.handles[i], f.hdus[i], i);
    if IsEdited(hdu.status) {
      EditedStays(hdu.status);
    }
    match operation
    case TouchOperation(_) => f.Touch(hdu, i);
    case EditOperation(_) => f.Edit(hdu, i);
    case CategoryOperation(_) => var _ := f.ReadCategory(hdu, i);
    case _ =>
  }

  /** Use a handle which was accessed. */
  method UseAccessed(f: MefFile, hdu: Hdu, ghost i: int, operation: Operation, ghost statuses: seq<Category>)
    requires f.Valid() && 0 <= i < |f.handles| && f.handles[i] == hdu && StatusesFrom(f.handles, statuses, 0)
    modifies f`current, hdu`status
    ensures f.Valid() && (IsEdited(old(hdu.status)) ==> hdu.status == old(hdu.status))
    ensures StatusesFrom(f.handles, statuses[i := UsedStatus(f.hdus[i].kind, statuses[i], operation)], 0)
  {
    forall j | 0 <= j < |f.handles| && j != i ensures f.handles[j] != hdu {
      f.HandlesDiffer(i, j);
    }
    UseHandle(f, hdu, i, operation);
  }

  /** Access an HDU, which does not change any status. */
  method AccessHdu(f: MefFile, at: int, ghost statuses: seq<Category>) returns (hdu: Hdu?)
    requires f.Valid() && StatusesFrom(f.handles, statuses, 0)
    modifies f`current, f`handles, f`made
    ensures f.Valid() && f.hdus == old(f.hdus) && old(f.made) <= f.made && fresh(f.made - old(f.made))
    ensures SlotsKept(old(f.handles), f.handles) && StatusesFrom(f.handles, statuses, 0)
    ensures var i := if at < 0 then at + |f.hdus| else at;
      if 0 <= i < |f.hdus| && !f.hdus[i].kind.OtherKind?
      then hdu == f.handles[i] && hdu != null && (hdu in old(f.made) || fresh(hdu))
      else hdu == null
  {
    hdu := f.Access(at);
  }

  /** Access an HDU and use it. */
  method UseHdu(f: MefFile, operation: Operation, ghost statuses: seq<Category>)
    requires f.Valid() && !operation.AppendOperation? && !operation.RemoveOperation?
    requires StatusesFrom(f.handles, statuses, 0)
    modifies f`current, f`handles, f`made, f.made`status
    ensures f.Valid() && f.hdus == old(f.hdus) && old(f.made) <= f.made && fresh(f.made - old(f.made))
    ensures Follows(f.hdus, old(f.handles), f.nextId, f.hdus, f.handles)
    ensures EditedStay(old(f.made)) && |f.hdus| == |statuses|
    ensures StatusesFrom(f.handles, UsedStatuses(f.hdus, statuses, operation.at, operation), 0)
  {
    var hdu := AccessHdu(f, operation.at, statuses);
    FollowsAccess(f.hdus, old(f.handles), f.nextId, f.handles);
    if hdu == null {
      return;
    }
    ghost var i := if operation.at < 0 then operation.at + |f.hdus| else operation.at;
    UseAccessed(f, hdu, i, operation, statuses);
  }

  method RemoveHdu(f: MefFile, at: int, ghost statuses: seq<Category>)
    requires f.Valid() && Identified(f.hdus, f.nextId) && Allowed(f, RemoveOperation(at))
    requires StatusesFrom(f.handles, statuses, 0)
    modifies f, f.made
    ensures f.Valid() && old(f.made) <= f.made && fresh(f.made - old(f.made)) && f.nextId == old(f.nextId)
    ensures Identified(f.hdus, f.nextId)
    ensures Follows(old(f.hdus), old(f.handles), old(f.nextId), f.hdus, f.handles)
    ensures EditedStay(old(f.made)) && |old(f.hdus)| == |statuses|
    ensures f.hdus == Removed(old(f.hdus), at)
    ensures StatusesFrom(f.handles, StatusesLeft(old(f.hdus), statuses, at), 0)
  {
    ghost var hdus, slots := f.hdus, f.handles;
    var ok := f.Remove(at, statuses);
    if !ok {
      FollowsAccess(hdus, slots, f.nextId, f.handles);
    } else if at > 0 {
      FollowsRemoval(hdus, slots, f.nextId, at);
    } else {
      FollowsFirstRemoval(hdus, slots, f.nextId, f.hdus[0], f.handles[0]);
    }
  }

  method AppendHdu(f: MefFile, kind: Kind, content: Content, ghost statuses: seq<Category>)
    requires f.Valid() && Identified(f.hdus, f.nextId) && !kind.OtherKind? && StatusesFrom(f.handles, statuses, 0)
    modifies f
    ensures f.Valid() && old(f.made) <= f.made && fresh(f.made - old(f.made)) && f.nextId == old(f.nextId) + 1
    ensures Identified(f.hdus, f.nextId)
    ensures Follows(old(f.hdus), old(f.handles), old(f.nextId), f.hdus, f.handles)
    ensures EditedStay(old(f.made))
    ensures f.hdus == old(f.hdus) + [FileHdu(old(f.nextId), kind, content)]
    ensures StatusesFrom(f.handles, statuses + [Created()], 0)
  {
    ghost var hdus, slots, nextId := f.hdus, f.handles, f.nextId;
    var hdu := f.Append(kind, content);
    FollowsAppend(hdus, slots, nextId, FileHdu(nextId, kind, content), hdu);
  }

  /** One operation, on a file whose HDUs and statuses are those of a plain list, does the same to that list. */
  method Do(f: MefFile, operation: Operation, ghost listing: Listing) returns (ghost next: Listing)
    requires f.Valid() && Identified(f.hdus, f.nextId) && Allowed(f, operation) && IsListing(f, listing)
    modifies f, f.made
    ensures f.Valid() && old(f.made) <= f.made && fresh(f.made - old(f.made)) && f.nextId >= old(f.nextId)
    ensures Identified(f.hdus, f.nextId)
    ensures Follows(old(f.hdus), old(f.handles), old(f.nextId), f.hdus, f.handles)
    ensures EditedStay(old(f.made))
    ensures |listing.hdus| == |listing.statuses| && next == Step(listing, operation) && IsListing(f, next)
  {
    next := Step(listing, operation);
    match operation
    case RemoveOperation(at) => RemoveHdu(f, at, listing.statuses);
    case AppendOperation(kind, content) => AppendHdu(f, kind, content, listing.statuses);
    case _ => UseHdu(f, operation, listing.statuses);
  }

  /** The list is that of the HDUs of the file, with their statuses. */
  ghost predicate IsListing(f: MefFile, listing: Listing)
    reads f, f.handles
  {
    listing.hdus == f.hdus && listing.nextId == f.nextId && |f.hdus| == |f.handles|
      && StatusesFrom(f.handles, listing.statuses, 0)
  }

  lemma StepAllMore(listing: Listing, operations: seq<Operation>, done: nat)
    requires |listing.hdus| == |listing.statuses| && done < |operations|
    ensures StepAll(listing, operations[..done + 1]) == Step(StepAll(listing, operations[..done]), operations[done])
  {
    assert operations[..done + 1][..done] == operations[..done];
  }

  /** Run operations as long as they are allowed. */
  method Run(f: MefFile, operations: seq<Operation>, ghost listing: Listing) returns (done: nat)
    requires f.Valid() && Identified(f.hdus, f.nextId) && IsListing(f, listing)
    modifies f, f.made
    ensures f.Valid() && old(f.made) <= f.made && fresh(f.made - old(f.made)) && f.nextId >= old(f.nextId)
    ensures Identified(f.hdus, f.nextId)
    ensures Follows(old(f.hdus), old(f.handles), old(f.nextId), f.hdus, f.handles)
    ensures EditedStay(old(f.made))
    ensures done <= |operations| && |listing.hdus| == |listing.statuses|
    ensures IsListing(f, StepAll(listing, operations[..done]))
    ensures done < |operations| ==> !Allowed(f, operations[done])
  {
    done := 0;
    ghost var now := listing;
    FollowsAccess(f.hdus, f.handles, f.nextId, f.handles);
    while done < |operations| && Allowed(f, operations[done])
      invariant done <= |operations|
      invariant f.Valid() && old(f.made) <= f.made && fresh(f.made - old(f.made)) && f.nextId >= old(f.nextId)
      invariant Identified(f.hdus, f.nextId)
      invariant Follows(old(f.hdus), old(f.handles), old(f.nextId), f.hdus, f.handles)
      invariant EditedStay(old(f.made))
      invariant now == StepAll(listing, operations[..done]) && IsListing(f, now)
    {
      ghost var hdus, slots, nextId := f.hdus, f.handles, f.nextId;
      StepAllMore(listing, operations, done);
      now := Do(f, operations[done], now);
      FollowsAfter(old(f.hdus), old(f.handles), old(f.nextId), hdus, slots, nextId, f.hdus, f.handles);
      done := done + 1;
    }
  }
}
