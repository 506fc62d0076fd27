/** The course-type screen: its form check, the action its submit handler dispatches,
    its confirmed delete, and the "used in N course offerings" count. */
module CourseTypes {
  import opened Wrappers
  import opened Seqs
  import opened Text
  import opened AppContext
  import opened NameRules

  const NameRequired := "Course type name is required"
  const NameTaken := "A course type with this name already exists"
  const IdPrefix := "ct"

  /** `validateForm`; `editing` is the course type whose edit dialog is open, if any. */
  function ValidateForm(s: AppState, name: string, editing: Option<CourseType>): (r: Outcome<string>)
    ensures r == Fail(NameRequired) <==> IsBlank(name)
    ensures r == Fail(NameTaken) <==> !IsBlank(name) && Clashes(s.courseTypes, name, editing)
    ensures r == Pass <==> !IsBlank(name) && !Clashes(s.courseTypes, name, editing)
  {
    ValidateName(s.courseTypes, name, editing, NameRequired, NameTaken)
  }

  /** `handleSubmit`: nothing is dispatched when the check fails; otherwise an update that
      keeps the edited course type's id, or an add of a new "ct" id. `stamp` is the clock
      reading `Date.now()` would give. */
  function HandleSubmit(s: AppState, name: string, editing: Option<CourseType>, stamp: nat): (r: Submission)
    ensures r.Rejected? <==> ValidateForm(s, name, editing).Fail?
    ensures r.Rejected? ==> r.message == ValidateForm(s, name, editing).error
    ensures r.Dispatched? && editing.Some? ==>
              r.action.UpdateCourseType? && r.action.courseType == editing.value.(name := name)
    ensures r.Dispatched? && editing.None? ==>
              r.action.AddCourseType? && r.action.courseType.name == name
              && IdPrefix <= r.action.courseType.id && r.action.courseType.id[|IdPrefix|..] == Decimal(stamp)
  {
    match ValidateForm(s, name, editing)
    case Fail(message) => Rejected(message)
    case Pass =>
      var x := Payload(name, editing, IdPrefix, stamp);
      if editing.Some? then Dispatched(UpdateCourseType(x)) else Dispatched(AddCourseType(x))
  }

  /** The number of offerings that use course type `id`. */
  function UsageCount(s: AppState, id: string): (n: nat)
    ensures n <= |s.courseOfferings|
    ensures n == 0 <==> forall i :: 0 <= i < |s.courseOfferings| ==> s.courseOfferings[i].courseTypeId != id
  {
    CountPositiveIffAny(s.courseOfferings, OfType(id));
    Count(s.courseOfferings, OfType(id))
  }

  /** A course type shown as used in at least one offering is exactly one the store
      refuses to delete. */
  lemma UsageCountBlocksDelete(s: AppState, id: string)
    ensures UsageCount(s, id) > 0 <==> Reduce(s, DeleteCourseType(id)).alert.Some?
  {
    CountPositiveIffAny(s.courseOfferings, OfType(id));
  }

  /** `handleDelete`: the delete is dispatched only when the user confirms. */
  function HandleDelete(s: AppState, id: string, confirmed: bool): (r: Step)
    ensures !confirmed ==> r == Step(s, None)
    ensures confirmed ==> r == Reduce(s, DeleteCourseType(id))
    ensures confirmed ==> (r.alert.Some? <==> UsageCount(s, id) > 0)
    ensures confirmed && UsageCount(s, id) > 0 ==> r.state == s
    ensures confirmed && UsageCount(s, id) == 0 ==>
              forall x :: x in r.state.courseTypes <==> x in s.courseTypes && x.id != id
    ensures r.state == s.(courseTypes := r.state.courseTypes)
  {
    if confirmed then
      UsageCountBlocksDelete(s, id);
      DeleteCourseTypeGuard(s, id);
      Reduce(s, DeleteCourseType(id))
    else Step(s, None)
  }

  /** Validate-then-dispatch keeps every invariant, given a fresh id for an added course
      type: names stay unique ignoring case although the store never checks them. */
  lemma SubmitPreservesConsistency(s: AppState, name: string, editing: Option<CourseType>, stamp: nat)
    requires Consistent(s)
    requires editing.None? ==> !CourseTypeExists(s, IdPrefix + Decimal(stamp))
    ensures HandleSubmit(s, name, editing, stamp).Dispatched? ==>
              Consistent(Reduce(s, HandleSubmit(s, name, editing, stamp).action).state)
  {
    var r := HandleSubmit(s, name, editing, stamp);
    if r.Dispatched? {
      ReducePreservesIntegrity(s, r.action);
      var x := Payload(name, editing, IdPrefix, stamp);
      if editing.Some? {
        assert Clashes(s.courseTypes, name, Some(x)) == Clashes(s.courseTypes, name, editing);
        ReplaceKeepsKeys(s.courseTypes, x);
      } else {
        AppendKeepsKeys(s.courseTypes, x);
      }
    }
  }

  /** From a list whose ids are unique, a dispatched submit keeps names unique ignoring
      case, whatever id an added course type gets: the duplicate check guarantees it and the
      store adds nothing. Once ids collide it no longer holds (see
      `CourseTypes.ClockCollisionThenEditDuplicatesNames`). */
  lemma SubmitKeepsNamesUnique(s: AppState, name: string, editing: Option<CourseType>, stamp: nat)
    requires DistinctBy(s.courseTypes, IdOf) && DistinctBy(s.courseTypes, FoldedName)
    ensures HandleSubmit(s, name, editing, stamp).Dispatched? ==>
              DistinctBy(Reduce(s, HandleSubmit(s, name, editing, stamp).action).state.courseTypes, FoldedName)
  {
    var r := HandleSubmit(s, name, editing, stamp);
    if r.Dispatched? {
      var x := Payload(name, editing, IdPrefix, stamp);
      if editing.Some? {
        assert Clashes(s.courseTypes, name, Some(x)) == Clashes(s.courseTypes, name, editing);
        ReplaceKeepsNames(s.courseTypes, x);
      } else {
        AppendKeepsNames(s.courseTypes, x);
      }
    }
  }

  /** A clock collision: "ct5" named "a" is stored, "b" is added at clock 5, and the old
      row is then renamed to "c". */
  const StoredRow := Named("ct5", "a")
  const AddedRow := Named("ct5", "b")
  const RenamedRow := Named("ct5", "c")
  const CollisionStart := AppState([StoredRow], [], [], [], [])
  const CollisionAfterAdd := CollisionStart.(courseTypes := [StoredRow, AddedRow])

  /** Names stay unique only while ids do. An add whose clock reading repeats a stored id
      passes the name check, and a later edit of either row renames both: from a store
      holding "ct5" named "a", adding "b" at clock 5 and then renaming the old row to "c"
      leaves two course types named "c". */
  lemma ClockCollisionThenEditDuplicatesNames()
    ensures Consistent(CollisionStart)
    ensures HandleSubmit(CollisionStart, "b", None, 5) == Dispatched(AddCourseType(AddedRow))
    ensures Reduce(CollisionStart, AddCourseType(AddedRow)).state == CollisionAfterAdd
    ensures DistinctBy(CollisionAfterAdd.courseTypes, FoldedName)
    ensures !DistinctBy(CollisionAfterAdd.courseTypes, IdOf)
    ensures HandleSubmit(CollisionAfterAdd, "c", Some(StoredRow), 6) == Dispatched(UpdateCourseType(RenamedRow))
    ensures Reduce(CollisionAfterAdd, UpdateCourseType(RenamedRow)).state.courseTypes == [RenamedRow, RenamedRow]
  {
    CollisionStartConsistent();
    CollidingAddPasses();
    CollidedRows();
    EditOfCollidedRowPasses();
    EditOfCollidedRowRenamesBoth();
  }

  lemma CollisionStartConsistent()
    ensures Consistent(CollisionStart)
  {
    assert |CollisionStart.courseTypes| == 1;
  }

  /** Adding "b" at clock 5 next to "ct5" named "a" passes the check under id "ct5". */
  lemma CollidingAddPasses()
    ensures HandleSubmit(CollisionStart, "b", None, 5) == Dispatched(AddCourseType(AddedRow))
  {
    assert !IsSpace("b"[0]);
    assert ToLower("a")[0] == 'a' && ToLower("b")[0] == 'b';
    assert !Clashes(CollisionStart.courseTypes, "b", None);
    assert IdPrefix + Decimal(5) == "ct5";
  }

  /** After the add the two rows share an id, and their names differ ignoring case. */
  lemma CollidedRows()
    ensures Reduce(CollisionStart, AddCourseType(AddedRow)).state == CollisionAfterAdd
    ensures DistinctBy(CollisionAfterAdd.courseTypes, FoldedName)
    ensures !DistinctBy(CollisionAfterAdd.courseTypes, IdOf)
  {
    assert [StoredRow] + [AddedRow] == [StoredRow, AddedRow];
    assert ToLower("a")[0] == 'a' && ToLower("b")[0] == 'b';
    assert FoldedName(StoredRow) != FoldedName(AddedRow);
    assert IdOf(CollisionAfterAdd.courseTypes[0]) == IdOf(CollisionAfterAdd.courseTypes[1]);
  }

  /** With two rows sharing id "ct5", renaming either to "c" passes the check: both rows
      count as the one being edited. */
  lemma EditOfCollidedRowPasses()
    ensures HandleSubmit(CollisionAfterAdd, "c", Some(StoredRow), 6) == Dispatched(UpdateCourseType(RenamedRow))
  {
    assert !IsSpace("c"[0]);
    assert !Clashes(CollisionAfterAdd.courseTypes, "c", Some(StoredRow));
  }

  /** UPDATE_COURSE_TYPE for "ct5" replaces both rows that carry that id. */
  lemma EditOfCollidedRowRenamesBoth()
    ensures Reduce(CollisionAfterAdd, UpdateCourseType(RenamedRow)).state.courseTypes == [RenamedRow, RenamedRow]
  {
    assert ReplaceWhere([StoredRow, AddedRow], HasId("ct5"), RenamedRow) == [RenamedRow, RenamedRow];
  }

  /** Editing a stored course type and changing only the case of its name passes the
      check: its own name does not count as a duplicate. */
  lemma RenameToCaseVariantPasses(s: AppState, k: nat, name: string)
    requires DistinctBy(s.courseTypes, FoldedName)
    requires k < |s.courseTypes|
    requires !IsBlank(name) && ToLower(name) == ToLower(s.courseTypes[k].name)
    ensures ValidateForm(s, name, Some(s.courseTypes[k])) == Pass
  {
    var xs := s.courseTypes;
    forall i | 0 <= i < |xs| && xs[i].id != xs[k].id ensures ToLower(xs[i].name) != ToLower(name) {
      assert i != k;
      if i < k {
        assert FoldedName(xs[i]) != FoldedName(xs[k]);
      } else {
        assert FoldedName(xs[k]) != FoldedName(xs[i]);
      }
    }
  }
}
