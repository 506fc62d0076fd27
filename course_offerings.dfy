/** The course-offering screen: the pair check, the action its submit handler dispatches,
    its confirmed delete, the names and enrolment count shown on each card, and when
    the add button is disabled. */
module CourseOfferings {
  import opened Wrappers
  import opened Seqs
  import opened Text
  import opened AppContext

  /** The two selections of the add/edit dialog. */
  datatype OfferingForm = OfferingForm(courseId: string, courseTypeId: string)

  const SelectBoth := "Please select both a course and a course type"
  const CombinationExists := "This course offering combination already exists"
  const IdPrefix := "co"
  const UnknownCourse := "Unknown Course"
  const UnknownType := "Unknown Type"

  /** Some offering other than the one being edited already pairs the selected course with
      the selected course type. */
  predicate PairTaken(s: AppState, form: OfferingForm, editing: Option<CourseOffering>)
  {
    exists i :: 0 <= i < |s.courseOfferings|
                && (editing.None? || s.courseOfferings[i].id != editing.value.id)
                && s.courseOfferings[i].courseId == form.courseId
                && s.courseOfferings[i].courseTypeId == form.courseTypeId
  }

  function SamePair(form: OfferingForm): CourseOffering -> bool
  {
    (o: CourseOffering) => o.courseId == form.courseId && o.courseTypeId == form.courseTypeId
  }

  function OtherWithPair(editingId: string, form: OfferingForm): CourseOffering -> bool
  {
    (o: CourseOffering) => o.id != editingId && o.courseId == form.courseId && o.courseTypeId == form.courseTypeId
  }

  /** `validateForm`: both selections must be made, then the pair must be new (for an edit,
      new among the other offerings). */
  function ValidateForm(s: AppState, form: OfferingForm, editing: Option<CourseOffering>): (r: Outcome<string>)
    ensures r == Fail(SelectBoth) <==> form.courseId == "" || form.courseTypeId == ""
    ensures r == Fail(CombinationExists) <==>
              form.courseId != "" && form.courseTypeId != "" && PairTaken(s, form, editing)
    ensures r == Pass <==> form.courseId != "" && form.courseTypeId != "" && !PairTaken(s, form, editing)
  {
    if form.courseId == "" || form.courseTypeId == "" then Fail(SelectBoth)
    else if editing.None? && Any(s.courseOfferings, SamePair(form)) then Fail(CombinationExists)
    else if editing.Some? && Any(s.courseOfferings, OtherWithPair(editing.value.id, form)) then Fail(CombinationExists)
    else Pass
  }

  /** `handleSubmit`: nothing is dispatched when the check fails; an edit keeps the
      offering's id and replaces only its course and course type; an add gets a "co" id. */
  function HandleSubmit(s: AppState, form: OfferingForm, editing: Option<CourseOffering>, stamp: nat)
    : (r: Submission)
    ensures r.Rejected? <==> ValidateForm(s, form, editing).Fail?
    ensures r.Rejected? ==> r.message == ValidateForm(s, form, editing).error
    ensures r.Dispatched? && editing.Some? ==>
              r.action.UpdateCourseOffering?
              && r.action.offering == editing.value.(courseId := form.courseId, courseTypeId := form.courseTypeId)
    ensures r.Dispatched? && editing.None? ==>
              r.action.AddCourseOffering?
              && r.action.offering.courseId == form.courseId
              && r.action.offering.courseTypeId == form.courseTypeId
              && IdPrefix <= r.action.offering.id && r.action.offering.id[|IdPrefix|..] == Decimal(stamp)
  {
    match ValidateForm(s, form, editing)
    case Fail(message) => Rejected(message)
    case Pass =>
      match editing
      case Some(e) => Dispatched(UpdateCourseOffering(e.(courseId := form.courseId, courseTypeId := form.courseTypeId)))
      case None => Dispatched(AddCourseOffering(CourseOffering(IdPrefix + Decimal(stamp), form.courseId, form.courseTypeId)))
  }

  /** Validate-then-dispatch keeps every invariant when the selections name stored rows
      (the dialog offers only those) and an added offering gets a fresh id: offering pairs
      stay unique although the store never checks them. */
  lemma SubmitPreservesConsistency(s: AppState, form: OfferingForm, editing: Option<CourseOffering>, stamp: nat)
    requires Consistent(s)
    requires CourseExists(s, form.courseId) && CourseTypeExists(s, form.courseTypeId)
    requires editing.None? ==> !OfferingExists(s, IdPrefix + Decimal(stamp))
    ensures HandleSubmit(s, form, editing, stamp).Dispatched? ==>
              Consistent(Reduce(s, HandleSubmit(s, form, editing, stamp).action).state)
  {
    var r := HandleSubmit(s, form, editing, stamp);
    if r.Dispatched? {
      ReducePreservesIntegrity(s, r.action);
      SubmitKeepsPairsUnique(s, form, editing, stamp);
      var xs := s.courseOfferings;
      var x := r.action.offering;
      if editing.Some? {
        var p := OfferingHasId(x.id);
        forall i, j | 0 <= i < j < |xs| ensures !(p(xs[i]) && p(xs[j])) {
          assert OfferingIdOf(xs[i]) != OfferingIdOf(xs[j]);
        }
        ReplaceDistinct(xs, p, x, OfferingIdOf);
      } else {
        AppendDistinct(xs, x, OfferingIdOf);
      }
    }
  }

  /** From a list whose ids are unique, a dispatched submit keeps course/course-type pairs
      unique, whatever id an added offering gets and whatever its selections name: the
      pair check guarantees it and the store adds nothing. Once ids collide it no longer
      holds (see `ClockCollisionThenEditDuplicatesPairs`). */
  lemma SubmitKeepsPairsUnique(s: AppState, form: OfferingForm, editing: Option<CourseOffering>, stamp: nat)
    requires DistinctBy(s.courseOfferings, OfferingIdOf) && DistinctBy(s.courseOfferings, PairOf)
    ensures HandleSubmit(s, form, editing, stamp).Dispatched? ==>
              DistinctBy(Reduce(s, HandleSubmit(s, form, editing, stamp).action).state.courseOfferings, PairOf)
  {
    var r := HandleSubmit(s, form, editing, stamp);
    if r.Dispatched? {
      var xs := s.courseOfferings;
      var x := r.action.offering;
      if editing.Some? {
        var p := OfferingHasId(x.id);
        forall i, j | 0 <= i < j < |xs| ensures !(p(xs[i]) && p(xs[j])) {
          assert OfferingIdOf(xs[i]) != OfferingIdOf(xs[j]);
        }
        forall i | 0 <= i < |xs| && !p(xs[i]) ensures PairOf(xs[i]) != PairOf(x) {
          assert !OtherWithPair(editing.value.id, form)(xs[i]);
        }
        ReplaceDistinct(xs, p, x, PairOf);
      } else {
        AppendDistinct(xs, x, PairOf);
      }
    }
  }

  /** Editing a stored offering without changing its course or course type passes the
      check in a store whose pairs are unique: its own pair does not count. */
  lemma KeepOwnPairPasses(s: AppState, k: nat)
    requires DistinctBy(s.courseOfferings, PairOf)
    requires k < |s.courseOfferings|
    requires s.courseOfferings[k].courseId != "" && s.courseOfferings[k].courseTypeId != ""
    ensures ValidateForm(s, OfferingForm(s.courseOfferings[k].courseId, s.courseOfferings[k].courseTypeId),
                         Some(s.courseOfferings[k])) == Pass
  {
    var xs := s.courseOfferings;
    var form := OfferingForm(xs[k].courseId, xs[k].courseTypeId);
    forall i | 0 <= i < |xs| && xs[i].id != xs[k].id ensures PairOf(xs[i]) != PairOf(xs[k]) {
      assert i != k;
      if i < k {
        assert PairOf(xs[i]) != PairOf(xs[k]);
      } else {
        assert PairOf(xs[k]) != PairOf(xs[i]);
      }
    }
    assert !PairTaken(s, form, Some(xs[k]));
  }

  /** A clock collision: offering "co5" = (c1, ct1) is stored, (c1, ct2) is added at clock
      5, and "co5" is then saved with its own pair. */
  const StoredOffering := CourseOffering("co5", "c1", "ct1")
  const AddedOffering := CourseOffering("co5", "c1", "ct2")
  const CollisionStart := AppState([Named("ct1", "Individual"), Named("ct2", "Group")],
                                   [Named("c1", "Hindi")], [StoredOffering], [], [])
  const CollisionAfterAdd := CollisionStart.(courseOfferings := [StoredOffering, AddedOffering])

  /** Pairs stay unique only while ids do. An add whose clock reading repeats a stored id
      passes the pair check, and a later edit of either row rewrites both: from a store
      holding "co5" = (c1, ct1), adding (c1, ct2) at clock 5 and then saving "co5" with its
      own pair leaves two offerings pairing c1 with ct1. */
  lemma ClockCollisionThenEditDuplicatesPairs()
    ensures Consistent(CollisionStart)
    ensures HandleSubmit(CollisionStart, OfferingForm("c1", "ct2"), None, 5) == Dispatched(AddCourseOffering(AddedOffering))
    ensures Reduce(CollisionStart, AddCourseOffering(AddedOffering)).state == CollisionAfterAdd
    ensures DistinctBy(CollisionAfterAdd.courseOfferings, PairOf)
    ensures !DistinctBy(CollisionAfterAdd.courseOfferings, OfferingIdOf)
    ensures HandleSubmit(CollisionAfterAdd, OfferingForm("c1", "ct1"), Some(StoredOffering), 6)
            == Dispatched(UpdateCourseOffering(StoredOffering))
    ensures Reduce(CollisionAfterAdd, UpdateCourseOffering(StoredOffering)).state.courseOfferings
            == [StoredOffering, StoredOffering]
  {
    CollisionStartConsistent();
    CollidingOfferingAddPasses();
    CollidedOfferings();
    SaveOfCollidedOfferingPasses();
    SaveOfCollidedOfferingRewritesBoth();
  }

  lemma CollisionStartConsistent()
    ensures Consistent(CollisionStart)
  {
    var s := CollisionStart;
    assert CourseExists(s, "c1") by { assert s.courses[0].id == "c1"; }
    assert CourseTypeExists(s, "ct1") by { assert s.courseTypes[0].id == "ct1"; }
    assert ToLower("Individual")[0] == 'i' && ToLower("Group")[0] == 'g';
    assert FoldedName(s.courseTypes[0]) != FoldedName(s.courseTypes[1]);
  }

  /** Adding (c1, ct2) at clock 5 passes the check under the stored id "co5". */
  lemma CollidingOfferingAddPasses()
    ensures HandleSubmit(CollisionStart, OfferingForm("c1", "ct2"), None, 5) == Dispatched(AddCourseOffering(AddedOffering))
  {
    assert !PairTaken(CollisionStart, OfferingForm("c1", "ct2"), None);
    assert IdPrefix + Decimal(5) == "co5";
  }

  /** After the add the two offerings share an id, and their pairs differ. */
  lemma CollidedOfferings()
    ensures Reduce(CollisionStart, AddCourseOffering(AddedOffering)).state == CollisionAfterAdd
    ensures DistinctBy(CollisionAfterAdd.courseOfferings, PairOf)
    ensures !DistinctBy(CollisionAfterAdd.courseOfferings, OfferingIdOf)
  {
    assert [StoredOffering] + [AddedOffering] == [StoredOffering, AddedOffering];
    assert OfferingIdOf(CollisionAfterAdd.courseOfferings[0]) == OfferingIdOf(CollisionAfterAdd.courseOfferings[1]);
  }

  /** With two offerings sharing id "co5", saving either with the stored pair passes the
      check: both count as the one being edited. */
  lemma SaveOfCollidedOfferingPasses()
    ensures HandleSubmit(CollisionAfterAdd, OfferingForm("c1", "ct1"), Some(StoredOffering), 6)
            == Dispatched(UpdateCourseOffering(StoredOffering))
  {
    assert !PairTaken(CollisionAfterAdd, OfferingForm("c1", "ct1"), Some(StoredOffering));
  }

  /** UPDATE_COURSE_OFFERING for "co5" rewrites both offerings that carry that id. */
  lemma SaveOfCollidedOfferingRewritesBoth()
    ensures Reduce(CollisionAfterAdd, UpdateCourseOffering(StoredOffering)).state.courseOfferings
            == [StoredOffering, StoredOffering]
  {
    assert ReplaceWhere([StoredOffering, AddedOffering], OfferingHasId("co5"), StoredOffering)
           == [StoredOffering, StoredOffering];
  }

  /** `getCourseName`: the name of the first course with that id; "Unknown Course" when
      there is none, or when its name is the empty string (the `||` fallback). */
  function CourseName(s: AppState, id: string): (r: string)
    ensures !CourseExists(s, id) ==> r == UnknownCourse
    ensures CourseExists(s, id) ==>
              exists k :: 0 <= k < |s.courses| && s.courses[k].id == id
                          && (forall j :: 0 <= j < k ==> s.courses[j].id != id)
                          && r == (if s.courses[k].name == "" then UnknownCourse else s.courses[k].name)
  {
    match Find(s.courses, HasId(id))
    case None => UnknownCourse
    case Some(c) => if c.name == "" then UnknownCourse else c.name
  }

  /** `getCourseTypeName`, with "Unknown Type" as the fallback. */
  function CourseTypeName(s: AppState, id: string): (r: string)
    ensures !CourseTypeExists(s, id) ==> r == UnknownType
    ensures CourseTypeExists(s, id) ==>
              exists k :: 0 <= k < |s.courseTypes| && s.courseTypes[k].id == id
                          && (forall j :: 0 <= j < k ==> s.courseTypes[j].id != id)
                          && r == (if s.courseTypes[k].name == "" then UnknownType else s.courseTypes[k].name)
  {
    match Find(s.courseTypes, HasId(id))
    case None => UnknownType
    case Some(c) => if c.name == "" then UnknownType else c.name
  }

  /** `getRegistrationCount`: how many registrations are for the offering. */
  function RegistrationCount(s: AppState, offeringId: string): (n: nat)
    ensures n <= |s.registrations|
    ensures n == 0 <==> forall i :: 0 <= i < |s.registrations| ==> s.registrations[i].courseOfferingId != offeringId
  {
    CountPositiveIffAny(s.registrations, ForOffering(offeringId));
    Count(s.registrations, ForOffering(offeringId))
  }

  /** An offering shown with at least one student is exactly one the store refuses to
      delete. */
  lemma RegistrationCountBlocksDelete(s: AppState, offeringId: string)
    ensures RegistrationCount(s, offeringId) > 0 <==> Reduce(s, DeleteCourseOffering(offeringId)).alert.Some?
  {
    CountPositiveIffAny(s.registrations, ForOffering(offeringId));
  }

  /** Adding a registration raises its offering's count by one and leaves every other
      offering's count as it was. */
  lemma RegistrationCountAfterAdd(s: AppState, reg: Registration, offeringId: string)
    ensures RegistrationCount(Reduce(s, AddRegistration(reg)).state, offeringId) ==
            RegistrationCount(s, offeringId) + (if reg.courseOfferingId == offeringId then 1 else 0)
  {
    var p := ForOffering(offeringId);
    assert Reduce(s, AddRegistration(reg)).state.registrations == s.registrations + [reg];
    FilterAppend(s.registrations, [reg], p);
    assert [reg][1..] == [];
    assert |Filter([reg], p)| == if p(reg) then 1 else 0;
  }

  /** The add button is disabled when there are no courses or no course types. */
  predicate AddDisabled(s: AppState): (b: bool)
    ensures b <==> !exists c, ct :: c in s.courses && ct in s.courseTypes
  {
    assert |s.courses| > 0 && |s.courseTypes| > 0 ==> s.courses[0] in s.courses && s.courseTypes[0] in s.courseTypes;
    |s.courses| == 0 || |s.courseTypes| == 0
  }

  /** `openAddModal`: the dialog starts on the first course and the first course type. */
  function DefaultForm(s: AppState): (f: OfferingForm)
    ensures |s.courses| == 0 ==> f.courseId == ""
    ensures |s.courses| > 0 ==> CourseExists(s, f.courseId) && FirstIndex(s.courses, HasId(f.courseId)) == 0
    ensures |s.courseTypes| == 0 ==> f.courseTypeId == ""
    ensures |s.courseTypes| > 0 ==> CourseTypeExists(s, f.courseTypeId) && FirstIndex(s.courseTypes, HasId(f.courseTypeId)) == 0
  {
    OfferingForm(if |s.courses| > 0 then s.courses[0].id else "",
                 if |s.courseTypes| > 0 then s.courseTypes[0].id else "")
  }

  /** Whenever the add button is disabled, the dialog's starting selections could not pass
      the check; whenever it is enabled, they name a stored course and course type. */
  lemma AddDisabledMatchesDefaultForm(s: AppState)
    ensures AddDisabled(s) ==> ValidateForm(s, DefaultForm(s), None) == Fail(SelectBoth)
    ensures !AddDisabled(s) ==> CourseExists(s, DefaultForm(s).courseId) && CourseTypeExists(s, DefaultForm(s).courseTypeId)
  {
    if !AddDisabled(s) {
      assert s.courses[0].id == DefaultForm(s).courseId;
      assert s.courseTypes[0].id == DefaultForm(s).courseTypeId;
    }
  }

  /** `handleDelete`: the delete is dispatched only when the user confirms. */
  function HandleDelete(s: AppState, id: string, confirmed: bool): (r: Step)
    ensures !confirmed ==> r == Step(s, None)
    ensures confirmed ==> r == Reduce(s, DeleteCourseOffering(id))
    ensures confirmed ==> (r.alert.Some? <==> RegistrationCount(s, id) > 0)
    ensures confirmed && RegistrationCount(s, id) > 0 ==> r.state == s
    ensures confirmed && RegistrationCount(s, id) == 0 ==>
              forall o :: o in r.state.courseOfferings <==> o in s.courseOfferings && o.id != id
    ensures r.state == s.(courseOfferings := r.state.courseOfferings)
  {
    if confirmed then
      RegistrationCountBlocksDelete(s, id);
      DeleteOfferingGuard(s, id);
      Reduce(s, DeleteCourseOffering(id))
    else Step(s, None)
  }
}
