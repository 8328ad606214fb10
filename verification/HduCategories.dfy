/**
 HDU categories as sequences of trits, filters made of categories, and the status of an HDU.

 Combining incompatible trits raises an exception, which is a missing result here.
 */
module HduCategories {

  import opened Wrappers

  datatype Trit = Unconstrained | First | Second

  const TRIT_COUNT: nat := 8

  type Category = s: seq<Trit> | |s| == TRIT_COUNT witness seq(TRIT_COUNT, _ => Unconstrained)

  // Trit positions
  const PRIMARY_EXT: nat := 0
  const METADATA_DATA: nat := 1
  const IMAGE_BINTABLE: nat := 2
  const INT_FLOAT: nat := 3
  const RAW_COMPRESSED: nat := 4
  const UNTOUCHED_TOUCHED: nat := 5
  const EXISTED_CREATED: nat := 6
  const READ_EDITED: nat := 7

  function ToggleFlag(t: Trit): (r: Trit)
  {
    match t
    case First => Second
    case Second => First
    case Unconstrained => Unconstrained
  }

  function RestrictFlag(l: Trit, r: Trit): (t: Option<Trit>)
  {
    if l == r then Some(l)
    else if l == Unconstrained then Some(r)
    else if r == Unconstrained then Some(l)
    else None
  }

  function ExtendFlag(l: Trit, r: Trit): (t: Trit)
  {
    if l == r then l else Unconstrained
  }

  function OverwriteFlag(l: Trit, r: Trit): (t: Trit)
  {
    if r == Unconstrained then l else r
  }

  /** `~a` */
  function Toggle(a: Category): (r: Category)
  {
    seq(TRIT_COUNT, i requires 0 <= i < TRIT_COUNT => ToggleFlag(a[i]))
  }

  predicate Compatible(a: Category, b: Category)
  {
    forall i :: 0 <= i < TRIT_COUNT ==> RestrictFlag(a[i], b[i]).Some?
  }

  /** `a & b` */
  function Restrict(a: Category, b: Category): (r: Option<Category>)
  {
    if Compatible(a, b) then
      Some(seq(TRIT_COUNT, i requires 0 <= i < TRIT_COUNT =>
        if RestrictFlag(a[i], b[i]).Some? then RestrictFlag(a[i], b[i]).value else Unconstrained))
    else None
  }

  /** `a | b` */
  function Extend(a: Category, b: Category): (r: Category)
  {
    seq(TRIT_COUNT, i requires 0 <= i < TRIT_COUNT => ExtendFlag(a[i], b[i]))
  }

  /** `a << b` */
  function Overwrite(a: Category, b: Category): (r: Category)
  {
    seq(TRIT_COUNT, i requires 0 <= i < TRIT_COUNT => OverwriteFlag(a[i], b[i]))
  }

  predicate IsInstance(c: Category, model: Category)
  {
    Restrict(c, model) == Some(c)
  }

  // Categories form a meet semi-lattice where the missing bottom is the exception

  /** Pointwise form of `IsInstance`. */
  ghost predicate Refines(c: Category, model: Category)
  {
    forall i :: 0 <= i < TRIT_COUNT ==> model[i] == Unconstrained || model[i] == c[i]
  }

  lemma InstanceIsRefinement(c: Category, model: Category)
    ensures IsInstance(c, model) <==> Refines(c, model)
  {
    if Refines(c, model) {
      forall i | 0 <= i < TRIT_COUNT ensures RestrictFlag(c[i], model[i]) == Some(c[i]) {
      }
      assert Restrict(c, model).value == c;
    }
    if IsInstance(c, model) {
      forall i | 0 <= i < TRIT_COUNT ensures model[i] == Unconstrained || model[i] == c[i] {
        assert Restrict(c, model).value[i] == c[i];
      }
    }
  }

  /** `isInstance` is a partial order. */
  lemma InstanceIsOrder(a: Category, b: Category, c: Category)
    ensures IsInstance(a, a)
    ensures IsInstance(a, b) && IsInstance(b, a) ==> a == b
    ensures IsInstance(a, b) && IsInstance(b, c) ==> IsInstance(a, c)
  {
    InstanceIsRefinement(a, a);
    InstanceIsRefinement(a, b);
    InstanceIsRefinement(b, a);
    InstanceIsRefinement(b, c);
    InstanceIsRefinement(a, c);
    if Refines(a, b) && Refines(b, a) {
      forall i | 0 <= i < TRIT_COUNT ensures a[i] == b[i] {
      }
      assert a == b;
    }
  }

  /** `&` is the greatest lower bound, and raises an exception exactly if there is no common instance. */
  lemma RestrictIsMeet(a: Category, b: Category)
    ensures Restrict(a, b).None? <==> forall c: Category :: !(IsInstance(c, a) && IsInstance(c, b))
    ensures Restrict(a, b).Some? ==> forall c: Category ::
      IsInstance(c, Restrict(a, b).value) <==> IsInstance(c, a) && IsInstance(c, b)
  {
    forall c: Category
      ensures IsInstance(c, a) && IsInstance(c, b) ==> Compatible(a, b)
      ensures Restrict(a, b).Some? ==>
        (IsInstance(c, Restrict(a, b).value) <==> IsInstance(c, a) && IsInstance(c, b))
    {
      RestrictIsMeetAt(a, b, c);
    }
    if Restrict(a, b).Some? {
      var r := Restrict(a, b).value;
      InstanceIsOrder(r, r, r);
      assert IsInstance(r, r);
    }
  }

  lemma RestrictIsMeetAt(a: Category, b: Category, c: Category)
    ensures IsInstance(c, a) && IsInstance(c, b) ==> Compatible(a, b)
    ensures Restrict(a, b).Some? ==>
      (IsInstance(c, Restrict(a, b).value) <==> IsInstance(c, a) && IsInstance(c, b))
  {
    InstanceIsRefinement(c, a);
    InstanceIsRefinement(c, b);
    if Restrict(a, b).Some? {
      var r := Restrict(a, b).value;
      InstanceIsRefinement(c, r);
      forall i | 0 <= i < TRIT_COUNT
        ensures (r[i] == Unconstrained || r[i] == c[i]) <==>
          (a[i] == Unconstrained || a[i] == c[i]) && (b[i] == Unconstrained || b[i] == c[i])
      {
        assert RestrictFlag(a[i], b[i]).Some?;
      }
    }
  }

  /** `|` is the least upper bound. */
  lemma ExtendIsJoin(a: Category, b: Category, model: Category)
    ensures IsInstance(Extend(a, b), model) <==> IsInstance(a, model) && IsInstance(b, model)
  {
    InstanceIsRefinement(a, model);
    InstanceIsRefinement(b, model);
    InstanceIsRefinement(Extend(a, b), model);
    forall i | 0 <= i < TRIT_COUNT
      ensures (model[i] == Unconstrained || model[i] == Extend(a, b)[i]) <==>
        (model[i] == Unconstrained || model[i] == a[i]) && (model[i] == Unconstrained || model[i] == b[i])
    {
    }
  }

  /** `~` is an involution and keeps the order. */
  lemma ToggleKeepsOrder(a: Category, b: Category)
    ensures Toggle(Toggle(a)) == a
    ensures IsInstance(a, b) <==> IsInstance(Toggle(a), Toggle(b))
  {
    InstanceIsRefinement(a, b);
    InstanceIsRefinement(Toggle(a), Toggle(b));
    assert Toggle(Toggle(a)) == a;
    forall i | 0 <= i < TRIT_COUNT
      ensures (b[i] == Unconstrained || b[i] == a[i]) <==>
        (Toggle(b)[i] == Unconstrained || Toggle(b)[i] == Toggle(a)[i])
    {
    }
  }

  /** `<<` gives an instance of its right operand, is `&` when that is defined, and leaves instances as they are. */
  lemma OverwriteIsRestriction(a: Category, b: Category)
    ensures IsInstance(Overwrite(a, b), b)
    ensures Restrict(a, b).Some? ==> Restrict(a, b).value == Overwrite(a, b)
    ensures Overwrite(a, b) == a <==> IsInstance(a, b)
  {
    InstanceIsRefinement(Overwrite(a, b), b);
    InstanceIsRefinement(a, b);
    if Restrict(a, b).Some? {
      forall i | 0 <= i < TRIT_COUNT ensures Restrict(a, b).value[i] == Overwrite(a, b)[i] {
        assert RestrictFlag(a[i], b[i]).Some?;
      }
    }
    if IsInstance(a, b) {
      assert Overwrite(a, b) == a;
    }
    if Overwrite(a, b) == a {
      forall i | 0 <= i < TRIT_COUNT ensures b[i] == Unconstrained || b[i] == a[i] {
        assert Overwrite(a, b)[i] == a[i];
      }
    }
  }

  // Filters

  datatype Filter = Filter(accept: seq<Category>, reject: seq<Category>)

  predicate Accepts(f: Filter, c: Category)
  {
    && (forall i :: 0 <= i < |f.reject| ==> !IsInstance(c, f.reject[i]))
    && (f.accept == [] || exists i :: 0 <= i < |f.accept| && IsInstance(c, f.accept[i]))
  }

  // What filters accept

  /** `f + c`: one more accepted category. */
  function Accepting(f: Filter, x: Category): (r: Filter)
  {
    f.(accept := f.accept + [x])
  }

  /** `f - c`: one more rejected category. */
  function Rejecting(f: Filter, x: Category): (r: Filter)
  {
    f.(reject := f.reject + [x])
  }

  /** A filter made of a single category accepts its instances, and the empty filter accepts everything. */
  lemma SingleAccepts(x: Category, c: Category)
    ensures Accepts(Filter([x], []), c) <==> IsInstance(c, x)
    ensures Accepts(Filter([], []), c)
  {
    assert [x][0] == x;
  }

  /** What is accepted by either of two lists is what is accepted by both together. */
  lemma UnionAccepts(a: seq<Category>, b: seq<Category>, reject: seq<Category>, c: Category)
    requires a != [] && b != []
    ensures Accepts(Filter(a + b, reject), c) <==> Accepts(Filter(a, reject), c) || Accepts(Filter(b, reject), c)
  {
    var ab := a + b;
    forall i | 0 <= i < |ab| ensures ab[i] == if i < |a| then a[i] else b[i - |a|] {
    }
    if Accepts(Filter(a, reject), c) {
      var i :| 0 <= i < |a| && IsInstance(c, a[i]);
      assert IsInstance(c, ab[i]);
    }
    if Accepts(Filter(b, reject), c) {
      var i :| 0 <= i < |b| && IsInstance(c, b[i]);
      assert ab[|a| + i] == b[i];
    }
    if Accepts(Filter(ab, reject), c) {
      var i :| 0 <= i < |ab| && IsInstance(c, ab[i]);
      assert if i < |a| then IsInstance(c, a[i]) else IsInstance(c, b[i - |a|]);
    }
  }

  /** One more accepted category lets its instances in, unless they are rejected. */
  lemma AcceptingAccepts(f: Filter, x: Category, c: Category)
    requires f.accept != []
    ensures Accepts(Accepting(f, x), c) <==>
      Accepts(f, c) || (IsInstance(c, x) && forall i :: 0 <= i < |f.reject| ==> !IsInstance(c, f.reject[i]))
  {
    UnionAccepts(f.accept, [x], f.reject, c);
    assert f == Filter(f.accept, f.reject) && [x][0] == x;
  }

  /** One more rejected category shuts its instances out. */
  lemma RejectingAccepts(f: Filter, x: Category, c: Category)
    ensures Accepts(Rejecting(f, x), c) <==> Accepts(f, c) && !IsInstance(c, x)
  {
    var more := f.reject + [x];
    assert more[|f.reject|] == x;
    assert forall i :: 0 <= i < |f.reject| ==> more[i] == f.reject[i];
  }

  /** `f * constraint` */
  function Constrain(f: Filter, constraint: Category): (r: Option<Filter>)
  {
    if forall i :: 0 <= i < |f.accept| ==> Compatible(f.accept[i], constraint) then
      Some(f.(accept := seq(|f.accept|, i requires 0 <= i < |f.accept| =>
        if Restrict(f.accept[i], constraint).Some? then Restrict(f.accept[i], constraint).value else f.accept[i])))
    else None
  }

  /** The constrained filter accepts what the filter accepts among the instances of the constraint. */
  lemma ConstrainedAccepts(f: Filter, constraint: Category, c: Category)
    requires Constrain(f, constraint).Some? && f.accept != []
    ensures Accepts(Constrain(f, constraint).value, c) <==> Accepts(f, c) && IsInstance(c, constraint)
  {
    var g := Constrain(f, constraint).value;
    forall i | 0 <= i < |f.accept|
      ensures IsInstance(c, g.accept[i]) <==> IsInstance(c, f.accept[i]) && IsInstance(c, constraint)
    {
      RestrictIsMeetAt(f.accept[i], constraint, c);
    }
    if Accepts(f, c) && IsInstance(c, constraint) {
      var i :| 0 <= i < |f.accept| && IsInstance(c, f.accept[i]);
      assert IsInstance(c, g.accept[i]);
    }
    if Accepts(g, c) {
      var i :| 0 <= i < |g.accept| && IsInstance(c, g.accept[i]);
      assert IsInstance(c, f.accept[i]);
    }
  }

  /** The law of the constrained filter, for every category. */
  ghost predicate ConstraintHolds(f: Filter, constraint: Category)
    requires Constrain(f, constraint).Some?
  {
    forall c: Category ::
      Accepts(Constrain(f, constraint).value, c) <==> Accepts(f, c) && IsInstance(c, constraint)
  }

  /** Every category is an instance of `Any`, which is an instance of itself only. */
  lemma AnyIsTop(c: Category)
    ensures IsInstance(c, Any())
    ensures IsInstance(Any(), c) <==> c == Any()
  {
    InstanceIsRefinement(c, Any());
    InstanceIsRefinement(Any(), c);
    if Refines(Any(), c) {
      assert c == Any();
    }
  }

  /**
   Without accepted categories the filter is not constrained at all, so that the law holds only if there is
   no constraint or if everything is rejected.
   */
  lemma EmptyAcceptCondition(f: Filter, constraint: Category)
    requires f.accept == []
    ensures Constrain(f, constraint) == Some(f)
    ensures ConstraintHolds(f, constraint) <==> constraint == Any() || Any() in f.reject
  {
    assert Constrain(f, constraint).value.accept == [];
    if constraint == Any() {
      forall c: Category ensures IsInstance(c, constraint) {
        AnyIsTop(c);
      }
    } else if Any() in f.reject {
      forall c: Category ensures !Accepts(f, c) {
        AnyIsTop(c);
      }
    } else {
      forall i | 0 <= i < |f.reject| ensures !IsInstance(Any(), f.reject[i]) {
        AnyIsTop(f.reject[i]);
      }
      AnyIsTop(constraint);
      assert Accepts(f, Any()) && !IsInstance(Any(), constraint);
    }
  }

  /** For which filters the law holds, among those which can be constrained. */
  lemma ConstraintCondition(f: Filter, constraint: Category)
    requires Constrain(f, constraint).Some?
    ensures ConstraintHolds(f, constraint) <==> f.accept != [] || constraint == Any() || Any() in f.reject
  {
    if f.accept == [] {
      EmptyAcceptCondition(f, constraint);
    } else {
      forall c: Category
        ensures Accepts(Constrain(f, constraint).value, c) <==> Accepts(f, c) && IsInstance(c, constraint)
      {
        ConstrainedAccepts(f, constraint, c);
      }
    }
  }

  /** The filter without categories is not constrained to binary tables. */
  lemma ConstraintLost()
    ensures Constrain(Filter([], []), Bintable()) == Some(Filter([], []))
    ensures !ConstraintHolds(Filter([], []), Bintable())
  {
    EmptyAcceptCondition(Filter([], []), Bintable());
    assert Bintable()[IMAGE_BINTABLE] == Second;
  }

  // The predefined categories

  function Any(): (r: Category)
  {
    seq(TRIT_COUNT, _ => Unconstrained)
  }

  /** The category with a single constrained trit. */
  function Single(position: nat, value: Trit): (r: Category)
    requires position < TRIT_COUNT
  {
    seq(TRIT_COUNT, i => if i == position then value else Unconstrained)
  }

  /** The category with two constrained trits. */
  function Double(p: nat, v: Trit, q: nat, w: Trit): (r: Category)
    requires p < TRIT_COUNT && q < TRIT_COUNT && p != q
    ensures Restrict(Single(p, v), Single(q, w)) == Some(r)
  {
    var r := seq(TRIT_COUNT, i => if i == p then v else if i == q then w else Unconstrained);
    assert Restrict(Single(p, v), Single(q, w)).value == r;
    r
  }

  function Image(): (r: Category) { Single(IMAGE_BINTABLE, First) }
  function Primary(): (r: Category) { Double(IMAGE_BINTABLE, First, PRIMARY_EXT, First) }
  function Ext(): (r: Category) { Single(PRIMARY_EXT, Second) }
  function Bintable(): (r: Category) { Double(PRIMARY_EXT, Second, IMAGE_BINTABLE, Second) }
  function Metadata(): (r: Category) { Single(METADATA_DATA, First) }
  function Data(): (r: Category) { Single(METADATA_DATA, Second) }
  function IntImage(): (r: Category) { Double(IMAGE_BINTABLE, First, INT_FLOAT, First) }
  function FloatImage(): (r: Category) { Double(IMAGE_BINTABLE, First, INT_FLOAT, Second) }
  function RawImage(): (r: Category) { Double(IMAGE_BINTABLE, First, RAW_COMPRESSED, First) }
  function CompressedImageExt(): (r: Category) { Double(IMAGE_BINTABLE, First, RAW_COMPRESSED, Second) }
  function Untouched(): (r: Category) { Single(UNTOUCHED_TOUCHED, First) }
  function Touched(): (r: Category) { Single(UNTOUCHED_TOUCHED, Second) }
  function Edited(): (r: Category) { Single(READ_EDITED, Second) }
  function TouchedEdited(): (r: Category) { Double(UNTOUCHED_TOUCHED, Second, READ_EDITED, Second) }
  function Created(): (r: Category) { Double(EXISTED_CREATED, Second, READ_EDITED, Second) }

  /** Constraining one trit. */
  lemma RestrictSingle(c: Category, p: nat, v: Trit)
    requires p < TRIT_COUNT && v != Unconstrained
    ensures Restrict(c, Single(p, v)) == if c[p] == Unconstrained || c[p] == v then Some(c[p := v]) else None
  {
    var s := Single(p, v);
    assert s[p] == v;
    if c[p] == Unconstrained || c[p] == v {
      assert Compatible(c, s);
      assert Restrict(c, s).value == c[p := v];
    }
  }

  /** Constraining two trits. */
  lemma RestrictDouble(c: Category, p: nat, v: Trit, q: nat, w: Trit)
    requires p < TRIT_COUNT && q < TRIT_COUNT && p != q && v != Unconstrained && w != Unconstrained
    ensures Restrict(c, Double(p, v, q, w)) ==
      if (c[p] == Unconstrained || c[p] == v) && (c[q] == Unconstrained || c[q] == w) then
        Some(c[p := v][q := w])
      else None
  {
    var s := Double(p, v, q, w);
    assert s[p] == v && s[q] == w;
    if (c[p] == Unconstrained || c[p] == v) && (c[q] == Unconstrained || c[q] == w) {
      assert Compatible(c, s);
      assert Restrict(c, s).value == c[p := v][q := w];
    }
  }

  // Status of an HDU

  /** The status after `touch`. */
  function AfterTouch(status: Category): (r: Category)
  {
    if status == Untouched() then Touched() else status
  }

  /** The status after `edit`. */
  function AfterEdit(status: Category): (r: Option<Category>)
  {
    Restrict(AfterTouch(status), Edited())
  }

  /** The same, where `edit` raises no exception. */
  function EditedStatus(status: Category): (r: Category)
  {
    match AfterEdit(status)
    case None => status
    case Some(s) => s
  }

  predicate IsStatus(status: Category)
  {
    status == Untouched() || status == Touched() || status == TouchedEdited() || status == Created()
  }

  predicate IsEdited(status: Category)
  {
    status[READ_EDITED] == Second
  }

  /** What is edited or created stays as it is. */
  lemma EditedStays(status: Category)
    requires IsStatus(status) && IsEdited(status)
    ensures AfterTouch(status) == status && AfterEdit(status) == Some(status)
  {
    assert Untouched()[READ_EDITED] == Unconstrained;
    RestrictSingle(status, READ_EDITED, Second);
    assert status[READ_EDITED := Second] == status;
  }

  /** `edit` goes through `touch`. */
  lemma TouchThenEdit(status: Category)
    ensures AfterEdit(AfterTouch(status)) == AfterEdit(status)
  {
  }

  lemma EditGivesEdited(status: Category)
    requires IsStatus(status)
    ensures AfterEdit(status).Some? && IsEdited(AfterEdit(status).value)
  {
    StatusStepStays(status);
    InstanceIsRefinement(AfterEdit(status).value, Edited());
    assert Edited()[READ_EDITED] == Second;
  }

  /** What `touch` changes: an untouched HDU is touched, and nothing else. */
  lemma TouchTrits(status: Category)
    requires IsStatus(status)
    ensures AfterTouch(status)[READ_EDITED] == status[READ_EDITED]
    ensures AfterTouch(status)[EXISTED_CREATED] == status[EXISTED_CREATED]
    ensures AfterTouch(status)[UNTOUCHED_TOUCHED] ==
      if status[UNTOUCHED_TOUCHED] == First then Second else status[UNTOUCHED_TOUCHED]
  {
    assert Untouched()[UNTOUCHED_TOUCHED] == First && Touched()[UNTOUCHED_TOUCHED] == Second;
    assert TouchedEdited()[UNTOUCHED_TOUCHED] == Second && Created()[UNTOUCHED_TOUCHED] == Unconstrained;
    assert Untouched()[READ_EDITED] == Touched()[READ_EDITED] == Unconstrained;
    assert Untouched()[EXISTED_CREATED] == Touched()[EXISTED_CREATED] == Unconstrained;
  }

  /** What `edit` changes: the HDU is touched as above, and edited. */
  lemma EditTrits(status: Category)
    requires IsStatus(status)
    ensures AfterEdit(status) == Some(AfterTouch(status)[READ_EDITED := Second])
  {
    StatusStepStays(status);
    RestrictSingle(AfterTouch(status), READ_EDITED, Second);
  }

  /** The trits of the predefined categories; all the others are unconstrained. */
  lemma PredefinedTrits(i: nat)
    requires i < TRIT_COUNT
    ensures Image()[i] == (if i == IMAGE_BINTABLE then First else Unconstrained)
    ensures Bintable()[i] == (if i == IMAGE_BINTABLE || i == PRIMARY_EXT then Second else Unconstrained)
    ensures Primary()[i] == (if i == IMAGE_BINTABLE || i == PRIMARY_EXT then First else Unconstrained)
    ensures Ext()[i] == (if i == PRIMARY_EXT then Second else Unconstrained)
    ensures Metadata()[i] == (if i == METADATA_DATA then First else Unconstrained)
    ensures Data()[i] == (if i == METADATA_DATA then Second else Unconstrained)
    ensures IntImage()[i] == (if i == IMAGE_BINTABLE || i == INT_FLOAT then First else Unconstrained)
    ensures FloatImage()[i] ==
      (if i == IMAGE_BINTABLE then First else if i == INT_FLOAT then Second else Unconstrained)
    ensures RawImage()[i] == (if i == IMAGE_BINTABLE || i == RAW_COMPRESSED then First else Unconstrained)
    ensures CompressedImageExt()[i] ==
      (if i == IMAGE_BINTABLE then First else if i == RAW_COMPRESSED then Second else Unconstrained)
    ensures Untouched()[i] == (if i == UNTOUCHED_TOUCHED then First else Unconstrained)
    ensures Touched()[i] == (if i == UNTOUCHED_TOUCHED then Second else Unconstrained)
    ensures Edited()[i] == (if i == READ_EDITED then Second else Unconstrained)
    ensures Created()[i] == (if i == EXISTED_CREATED || i == READ_EDITED then Second else Unconstrained)
  {
  }

  datatype StatusStep = TouchStep | EditStep

  /** The status after any sequence of accesses, if no exception is raised. */
  ghost function StatusAfter(status: Category, steps: seq<StatusStep>): (r: Option<Category>)
    decreases |steps|
  {
    if steps == [] then Some(status)
    else
      match StatusAfter(status, steps[..|steps| - 1])
      case None => None
      case Some(s) => if steps[|steps| - 1].TouchStep? then Some(AfterTouch(s)) else AfterEdit(s)
  }

  lemma StatusStepStays(status: Category)
    requires IsStatus(status)
    ensures IsStatus(AfterTouch(status))
    ensures AfterEdit(status).Some? && IsStatus(AfterEdit(status).value)
    ensures IsInstance(AfterEdit(status).value, Edited())
    ensures IsInstance(status, Edited()) ==> AfterTouch(status) == status && AfterEdit(status).value == status
    ensures status == Created() ==> AfterTouch(status) == status && AfterEdit(status).value == status
  {
    var t := AfterTouch(status);
    assert Untouched()[UNTOUCHED_TOUCHED] == First && Touched()[UNTOUCHED_TOUCHED] == Second;
    assert TouchedEdited()[UNTOUCHED_TOUCHED] == Second && Created()[UNTOUCHED_TOUCHED] == Unconstrained;
    InstanceIsRefinement(status, Edited());
    assert Edited()[READ_EDITED] == Second;
    if t == Touched() {
      assert AfterEdit(status) == Some(TouchedEdited());
    } else {
      assert Restrict(t, Edited()).value == t;
    }
    InstanceIsRefinement(AfterEdit(status).value, Edited());
  }

  /** Over every run: no exception, always one of the four statuses, and what is edited or created stays so. */
  lemma {:induction false} StatusRun(status: Category, steps: seq<StatusStep>)
    requires IsStatus(status)
    ensures StatusAfter(status, steps).Some? && IsStatus(StatusAfter(status, steps).value)
    ensures IsInstance(status, Edited()) ==> StatusAfter(status, steps) == Some(status)
    ensures status == Created() ==> StatusAfter(status, steps) == Some(status)
    ensures EditStep in steps ==> IsInstance(StatusAfter(status, steps).value, Edited())
    decreases |steps|
  {
    if steps != [] {
      var before := steps[..|steps| - 1];
      StatusRun(status, before);
      StatusStepStays(StatusAfter(status, before).value);
      if EditStep in steps && steps[|steps| - 1].TouchStep? {
        assert steps == before + [TouchStep];
      }
    }
  }
}
