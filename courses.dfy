/** The course screen: its form check, the action its submit handler dispatches,
    its confirmed delete, and the "used in N course offerings" count. */
module Courses {
  import opened Wrappers
  import opened Seqs
  import opened Text
  import opened AppContext
  import opened NameRules

  const NameRequired := "Course name is required"
  const NameTaken := "A course with this name already exists"
  const IdPrefix := "c"

  /** `validateForm`; `editing` is the course whose edit dialog is open, if any. */
  function ValidateForm(s: AppState, name: string, editing: Option<Course>): (r: Outcome<string>)
    ensures r == Fail(NameRequired) <==> IsBlank(name)
    ensures r == Fail(NameTaken) <==> !IsBlank(name) && Clashes(s.courses, name, editing)
    ensures r == Pass <==> !IsBlank(name) && !Clashes(s.courses, name, editing)
  {
    ValidateName(s.courses, name, editing, NameRequired, NameTaken)
  }

  /** `handleSubmit`: nothing is dispatched when the check fails; otherwise an update that
      keeps the edited course's id, or an add of a new "c" id. `stamp` is the clock
      reading `Date.now()` would give. */
  function HandleSubmit(s: AppState, name: string, editing: Option<Course>, stamp: nat): (r: Submission)
    ensures r.Rejected? <==> ValidateForm(s, name, editing).Fail?
    ensures r.Rejected? ==> r.message == ValidateForm(s, name, editing).error
    ensures r.Dispatched? && editing.Some? ==>
              r.action.UpdateCourse? && r.action.course == editing.value.(name := name)
    ensures r.Dispatched? && editing.None? ==>
              r.action.AddCourse? && r.action.course.name == name
              && IdPrefix <= r.action.course.id && r.action.course.id[|IdPrefix|..] == Decimal(stamp)
  {
    match ValidateForm(s, name, editing)
    case Fail(message) => Rejected(message)
    case Pass =>
      var x := Payload(name, editing, IdPrefix, stamp);
      if editing.Some? then Dispatched(UpdateCourse(x)) else Dispatched(AddCourse(x))
  }

  /** The number of offerings that use course `id`. */
  function UsageCount(s: AppState, id: string): (n: nat)
    ensures n <= |s.courseOfferings|
    ensures n == 0 <==> forall i :: 0 <= i < |s.courseOfferings| ==> s.courseOfferings[i].courseId != id
  {
    CountPositiveIffAny(s.courseOfferings, OfCourse(id));
    Count(s.courseOfferings, OfCourse(id))
  }

  /** A course shown as used in at least one offering is exactly one the store
      refuses to delete. */
  lemma UsageCountBlocksDelete(s: AppState, id: string)
    ensures UsageCount(s, id) > 0 <==> Reduce(s, DeleteCourse(id)).alert.Some?
  {
    CountPositiveIffAny(s.courseOfferings, OfCourse(id));
  }

  /** `handleDelete`: the delete is dispatched only when the user confirms. */
  function HandleDelete(s: AppState, id: string, confirmed: bool): (r: Step)
    ensures !confirmed ==> r == Step(s, None)
    ensures confirmed ==> r == Reduce(s, DeleteCourse(id))
    ensures confirmed ==> (r.alert.Some? <==> UsageCount(s, id) > 0)
    ensures confirmed && UsageCount(s, id) > 0 ==> r.state == s
    ensures confirmed && UsageCount(s, id) == 0 ==>
              forall x :: x in r.state.courses <==> x in s.courses && x.id != id
    ensures r.state == s.(courses := r.state.courses)
  {
    if confirmed then
      UsageCountBlocksDelete(s, id);
      DeleteCourseGuard(s, id);
      Reduce(s, DeleteCourse(id))
    else Step(s, None)
  }

  /** Validate-then-dispatch keeps every invariant, given a fresh id for an added course:
      names stay unique ignoring case although the store never checks them. */
  lemma SubmitPreservesConsistency(s: AppState, name: string, editing: Option<Course>, stamp: nat)
    requires Consistent(s)
    requires editing.None? ==> !CourseExists(s, IdPrefix + Decimal(stamp))
    ensures HandleSubmit(s, name, editing, stamp).Dispatched? ==>
              Consistent(Reduce(s, HandleSubmit(s, name, editing, stamp).action).state)
  {
    var r := HandleSubmit(s, name, editing, stamp);
    if r.Dispatched? {
      ReducePreservesIntegrity(s, r.action);
      var x := Payload(name, editing, IdPrefix, stamp);
      if editing.Some? {
        assert Clashes(s.courses, name, Some(x)) == Clashes(s.courses, name, editing);
        ReplaceKeepsKeys(s.courses, x);
      } else {
        AppendKeepsKeys(s.courses, x);
      }
    }
  }

  /** From a list whose ids are unique, a dispatched submit keeps names unique ignoring
      case, whatever id an added course gets: the duplicate check guarantees it and the
      store adds nothing. Once ids collide it no longer holds (see
      `CourseTypes.ClockCollisionThenEditDuplicatesNames`). */
  lemma SubmitKeepsNamesUnique(s: AppState, name: string, editing: Option<Course>, stamp: nat)
    requires DistinctBy(s.courses, IdOf) && DistinctBy(s.courses, FoldedName)
    ensures HandleSubmit(s, name, editing, stamp).Dispatched? ==>
              DistinctBy(Reduce(s, HandleSubmit(s, name, editing, stamp).action).state.courses, FoldedName)
  {
    var r := HandleSubmit(s, name, editing, stamp);
    if r.Dispatched? {
      var x := Payload(name, editing, IdPrefix, stamp);
      if editing.Some? {
        assert Clashes(s.courses, name, Some(x)) == Clashes(s.courses, name, editing);
        ReplaceKeepsNames(s.courses, x);
      } else {
        AppendKeepsNames(s.courses, x);
      }
    }
  }

  /** Editing a stored course and changing only the case of its name passes the
      check: its own name does not count as a duplicate. */
  lemma RenameToCaseVariantPasses(s: AppState, k: nat, name: string)
    requires DistinctBy(s.courses, FoldedName)
    requires k < |s.courses|
    requires !IsBlank(name) && ToLower(name) == ToLower(s.courses[k].name)
    ensures ValidateForm(s, name, Some(s.courses[k])) == Pass
  {
    var xs := s.courses;
    forall i | 0 <= i < |xs| && xs[i].id != xs[k].id ensures ToLower(xs[i].name) != ToLower(name) {
      assert i != k;
      if i < k {
        assert FoldedName(xs[i]) != FoldedName(xs[k]);
      } else {
        assert FoldedName(xs[k]) != FoldedName(xs[i]);
      }
    }
  }

  /** The duplicate check compares the untrimmed input: next to "Hindi", the name
      "Hindi" followed by a space passes and would be stored as it is. */
  lemma TrailingSpaceIsNotADuplicate()
    ensures var s := AppState([], [Named("c1", "Hindi")], [], [], []);
      ValidateForm(s, "Hindi" + " ", None) == Pass
  {
    var s := AppState([], [Named("c1", "Hindi")], [], [], []);
    var name := "Hindi" + " ";
    assert !IsBlank(name) by { assert !IsSpace(name[0]); }
    forall i | 0 <= i < |s.courses| ensures ToLower(s.courses[i].name) != ToLower(name) {
      assert |ToLower(s.courses[i].name)| == 5 && |ToLower(name)| == 6;
    }
    assert !Clashes(s.courses, name, None);
  }
}
