/** The in-memory relational store: five collections changed only by a pure reducer.
    Each action yields a new snapshot; the three deletes that would orphan dependent
    rows are refused with a notice and leave the snapshot as it was. */
module AppContext {
  import opened Wrappers
  import opened Seqs
  import opened Text

  /** A course type or a course: both are an id and a name. */
  datatype Named = Named(id: string, name: string)
  type CourseType = Named
  type Course = Named

  datatype CourseOffering = CourseOffering(id: string, courseId: string, courseTypeId: string)

  datatype Student = Student(id: string, name: string, email: string, phone: string)

  datatype Registration = Registration(id: string, studentId: string, courseOfferingId: string,
                                       registrationDate: string)

  datatype AppState = AppState(
    courseTypes: seq<CourseType>,
    courses: seq<Course>,
    courseOfferings: seq<CourseOffering>,
    students: seq<Student>,
    registrations: seq<Registration>)

  datatype Action =
    | AddCourseType(courseType: CourseType)
    | UpdateCourseType(courseType: CourseType)
    | DeleteCourseType(courseTypeId: string)
    | AddCourse(course: Course)
    | UpdateCourse(course: Course)
    | DeleteCourse(courseId: string)
    | AddCourseOffering(offering: CourseOffering)
    | UpdateCourseOffering(offering: CourseOffering)
    | DeleteCourseOffering(offeringId: string)
    | AddStudent(student: Student)
    | AddRegistration(registration: Registration)
    | DeleteRegistration(registrationId: string)

  /** The reducer's answer: the next snapshot, and the notice shown when a delete is refused. */
  datatype Step = Step(state: AppState, alert: Option<string>)

  /** What a screen's submit handler does: show an inline message, or dispatch one action. */
  datatype Submission = Rejected(message: string) | Dispatched(action: Action)

  const CourseTypeInUseAlert := "Cannot delete this course type because it is used in course offerings."
  const CourseInUseAlert := "Cannot delete this course because it is used in course offerings."
  const OfferingInUseAlert := "Cannot delete this course offering because it has student registrations."

  /** The snapshot the application starts from. */
  const InitialState := AppState(
    [Named("ct1", "Individual"), Named("ct2", "Group"), Named("ct3", "Special")],
    [Named("c1", "Hindi"), Named("c2", "English"), Named("c3", "Urdu")],
    [CourseOffering("co1", "c1", "ct1"), CourseOffering("co2", "c2", "ct2")],
    [Student("s1", "John Doe", "john@example.com", "1234567890"),
     Student("s2", "Jane Smith", "jane@example.com", "0987654321")],
    [Registration("r1", "s1", "co1", "2023-04-15")])

  // Keys and selectors, named once so that every use denotes the same function.

  function IdOf(x: Named): string { x.id }
  function FoldedName(x: Named): string { ToLower(x.name) }
  function OfferingIdOf(o: CourseOffering): string { o.id }
  function PairOf(o: CourseOffering): (string, string) { (o.courseId, o.courseTypeId) }

  function HasId(id: string): Named -> bool { (x: Named) => x.id == id }
  function HasOtherId(id: string): Named -> bool { (x: Named) => x.id != id }
  function OfferingHasId(id: string): CourseOffering -> bool { (o: CourseOffering) => o.id == id }
  function OfferingHasOtherId(id: string): CourseOffering -> bool { (o: CourseOffering) => o.id != id }
  function RegistrationHasOtherId(id: string): Registration -> bool { (r: Registration) => r.id != id }
  function OfType(id: string): CourseOffering -> bool { (o: CourseOffering) => o.courseTypeId == id }
  function OfCourse(id: string): CourseOffering -> bool { (o: CourseOffering) => o.courseId == id }
  function ForOffering(id: string): Registration -> bool { (r: Registration) => r.courseOfferingId == id }

  // Existence and use of ids in a snapshot.

  predicate CourseTypeExists(s: AppState, id: string)
  {
    exists i :: 0 <= i < |s.courseTypes| && s.courseTypes[i].id == id
  }

  predicate CourseExists(s: AppState, id: string)
  {
    exists i :: 0 <= i < |s.courses| && s.courses[i].id == id
  }

  predicate OfferingExists(s: AppState, id: string)
  {
    exists i :: 0 <= i < |s.courseOfferings| && s.courseOfferings[i].id == id
  }

  predicate StudentExists(s: AppState, id: string)
  {
    exists i :: 0 <= i < |s.students| && s.students[i].id == id
  }

  /** Some offering has course type `id`. */
  predicate CourseTypeInUse(s: AppState, id: string)
  {
    exists i :: 0 <= i < |s.courseOfferings| && s.courseOfferings[i].courseTypeId == id
  }

  /** Some offering has course `id`. */
  predicate CourseInUse(s: AppState, id: string)
  {
    exists i :: 0 <= i < |s.courseOfferings| && s.courseOfferings[i].courseId == id
  }

  /** Some registration is for offering `id`. */
  predicate OfferingInUse(s: AppState, id: string)
  {
    exists i :: 0 <= i < |s.registrations| && s.registrations[i].courseOfferingId == id
  }

  /** The delete guards: the actions the store refuses in snapshot `s`. */
  predicate Blocked(s: AppState, a: Action)
  {
    match a
    case DeleteCourseType(id) => CourseTypeInUse(s, id)
    case DeleteCourse(id) => CourseInUse(s, id)
    case DeleteCourseOffering(id) => OfferingInUse(s, id)
    case _ => false
  }

  /** The reducer. Adds append, updates replace every element with the payload's id,
      deletes filter out every element with the given id. A blocked delete raises a notice
      and returns the snapshot unchanged; nothing else is ever refused. */
  function Reduce(s: AppState, a: Action): (r: Step)
    ensures r.alert.Some? <==> Blocked(s, a)
    ensures r.alert.Some? ==> r.state == s
  {
    match a
    case AddCourseType(ct) =>
      Step(s.(courseTypes := s.courseTypes + [ct]), None)
    case UpdateCourseType(ct) =>
      Step(s.(courseTypes := ReplaceWhere(s.courseTypes, HasId(ct.id), ct)), None)
    case DeleteCourseType(id) =>
      if Any(s.courseOfferings, OfType(id)) then Step(s, Some(CourseTypeInUseAlert))
      else Step(s.(courseTypes := Filter(s.courseTypes, HasOtherId(id))), None)
    case AddCourse(c) =>
      Step(s.(courses := s.courses + [c]), None)
    case UpdateCourse(c) =>
      Step(s.(courses := ReplaceWhere(s.courses, HasId(c.id), c)), None)
    case DeleteCourse(id) =>
      if Any(s.courseOfferings, OfCourse(id)) then Step(s, Some(CourseInUseAlert))
      else Step(s.(courses := Filter(s.courses, HasOtherId(id))), None)
    case AddCourseOffering(o) =>
      Step(s.(courseOfferings := s.courseOfferings + [o]), None)
    case UpdateCourseOffering(o) =>
      Step(s.(courseOfferings := ReplaceWhere(s.courseOfferings, OfferingHasId(o.id), o)), None)
    case DeleteCourseOffering(id) =>
      if Any(s.registrations, ForOffering(id)) then Step(s, Some(OfferingInUseAlert))
      else Step(s.(courseOfferings := Filter(s.courseOfferings, OfferingHasOtherId(id))), None)
    case AddStudent(st) =>
      Step(s.(students := s.students + [st]), None)
    case AddRegistration(reg) =>
      Step(s.(registrations := s.registrations + [reg]), None)
    case DeleteRegistration(id) =>
      Step(s.(registrations := Filter(s.registrations, RegistrationHasOtherId(id))), None)
  }

  /** Dispatching several actions in order, as consecutive `dispatch` calls do. */
  function ApplyAll(s: AppState, actions: seq<Action>): (r: AppState)
    ensures actions == [] ==> r == s
    ensures |actions| == 1 ==> r == Reduce(s, actions[0]).state
    decreases |actions|
  {
    if actions == [] then s else ApplyAll(Reduce(s, actions[0]).state, actions[1..])
  }

  /** Dispatching two lists one after the other is dispatching their concatenation. */
  lemma {:induction false} ApplyAllAppend(s: AppState, xs: seq<Action>, ys: seq<Action>)
    ensures ApplyAll(s, xs + ys) == ApplyAll(ApplyAll(s, xs), ys)
    decreases |xs|
  {
    if xs != [] {
      assert (xs + ys)[0] == xs[0];
      assert (xs + ys)[1..] == xs[1..] + ys;
      ApplyAllAppend(Reduce(s, xs[0]).state, xs[1..], ys);
    } else {
      assert xs + ys == ys;
    }
  }

  // ---------------------------------------------------------------------------------
  // Invariants

  /** Every offering names an existing course and course type; every registration names
      an existing offering. */
  predicate ReferentialIntegrity(s: AppState)
  {
    && (forall i :: 0 <= i < |s.courseOfferings| ==>
          CourseExists(s, s.courseOfferings[i].courseId)
          && CourseTypeExists(s, s.courseOfferings[i].courseTypeId))
    && (forall i :: 0 <= i < |s.registrations| ==>
          OfferingExists(s, s.registrations[i].courseOfferingId))
  }

  /** Every registration names an existing student. */
  predicate RegistrationsHaveStudents(s: AppState)
  {
    forall i :: 0 <= i < |s.registrations| ==> StudentExists(s, s.registrations[i].studentId)
  }

  /** Course type, course and offering ids are unique; course type and course names are
      unique ignoring case; no two offerings pair the same course with the same type. */
  predicate KeysUnique(s: AppState)
  {
    && DistinctBy(s.courseTypes, IdOf)
    && DistinctBy(s.courses, IdOf)
    && DistinctBy(s.courseOfferings, OfferingIdOf)
    && DistinctBy(s.courseTypes, FoldedName)
    && DistinctBy(s.courses, FoldedName)
    && DistinctBy(s.courseOfferings, PairOf)
  }

  predicate Consistent(s: AppState)
  {
    ReferentialIntegrity(s) && RegistrationsHaveStudents(s) && KeysUnique(s)
  }

  /** What the store trusts its callers to check: an added or updated offering names an
      existing course and course type, and an added registration names an existing
      offering and student. */
  predicate Resolvable(s: AppState, a: Action)
  {
    match a
    case AddCourseOffering(o) => CourseExists(s, o.courseId) && CourseTypeExists(s, o.courseTypeId)
    case UpdateCourseOffering(o) => CourseExists(s, o.courseId) && CourseTypeExists(s, o.courseTypeId)
    case AddRegistration(reg) => OfferingExists(s, reg.courseOfferingId) && StudentExists(s, reg.studentId)
    case _ => true
  }

  // ---------------------------------------------------------------------------------
  // What each kind of action does

  /** Each add appends its payload as the last element of exactly one collection. */
  lemma AddAppends(s: AppState, a: Action)
    requires a.AddCourseType? || a.AddCourse? || a.AddCourseOffering? || a.AddStudent? || a.AddRegistration?
    ensures var r := Reduce(s, a); var t := r.state;
      && r.alert.None?
      && (a.AddCourseType? ==> t == s.(courseTypes := t.courseTypes)
                               && t.courseTypes[..|s.courseTypes|] == s.courseTypes
                               && |t.courseTypes| == |s.courseTypes| + 1
                               && t.courseTypes[|s.courseTypes|] == a.courseType)
      && (a.AddCourse? ==> t == s.(courses := t.courses)
                           && t.courses[..|s.courses|] == s.courses
                           && |t.courses| == |s.courses| + 1
                           && t.courses[|s.courses|] == a.course)
      && (a.AddCourseOffering? ==> t == s.(courseOfferings := t.courseOfferings)
                                   && t.courseOfferings[..|s.courseOfferings|] == s.courseOfferings
                                   && |t.courseOfferings| == |s.courseOfferings| + 1
                                   && t.courseOfferings[|s.courseOfferings|] == a.offering)
      && (a.AddStudent? ==> t == s.(students := t.students)
                            && t.students[..|s.students|] == s.students
                            && |t.students| == |s.students| + 1
                            && t.students[|s.students|] == a.student)
      && (a.AddRegistration? ==> t == s.(registrations := t.registrations)
                                 && t.registrations[..|s.registrations|] == s.registrations
                                 && |t.registrations| == |s.registrations| + 1
                                 && t.registrations[|s.registrations|] == a.registration)
  {
  }

  /** Each update keeps length, order and every id; the elements whose id is the payload's
      become the payload and all others are unchanged. Nothing else in the snapshot moves. */
  lemma UpdateReplacesById(s: AppState, a: Action)
    requires a.UpdateCourseType? || a.UpdateCourse? || a.UpdateCourseOffering?
    ensures var r := Reduce(s, a); var t := r.state;
      && r.alert.None?
      && (a.UpdateCourseType? ==>
            && t == s.(courseTypes := t.courseTypes)
            && |t.courseTypes| == |s.courseTypes|
            && forall i :: 0 <= i < |s.courseTypes| ==>
                 t.courseTypes[i].id == s.courseTypes[i].id
                 && t.courseTypes[i] == (if s.courseTypes[i].id == a.courseType.id then a.courseType
                                         else s.courseTypes[i]))
      && (a.UpdateCourse? ==>
            && t == s.(courses := t.courses)
            && |t.courses| == |s.courses|
            && forall i :: 0 <= i < |s.courses| ==>
                 t.courses[i].id == s.courses[i].id
                 && t.courses[i] == (if s.courses[i].id == a.course.id then a.course else s.courses[i]))
      && (a.UpdateCourseOffering? ==>
            && t == s.(courseOfferings := t.courseOfferings)
            && |t.courseOfferings| == |s.courseOfferings|
            && forall i :: 0 <= i < |s.courseOfferings| ==>
                 t.courseOfferings[i].id == s.courseOfferings[i].id
                 && t.courseOfferings[i] == (if s.courseOfferings[i].id == a.offering.id then a.offering
                                             else s.courseOfferings[i]))
  {
  }

  /** Deleting a course type is refused exactly when an offering uses it. Otherwise it
      removes exactly the course types with that id, keeping the rest with their
      multiplicities; the snapshot is unchanged exactly when it is refused or no course
      type has that id. */
  lemma DeleteCourseTypeGuard(s: AppState, id: string)
    ensures var r := Reduce(s, DeleteCourseType(id)); var t := r.state;
      && (r.alert.Some? <==> CourseTypeInUse(s, id))
      && (r.alert.Some? ==> r.alert == Some(CourseTypeInUseAlert))
      && (!CourseTypeInUse(s, id) ==>
            && t == s.(courseTypes := t.courseTypes)
            && SubsequenceOf(t.courseTypes, s.courseTypes)
            && (forall x :: x in t.courseTypes <==> x in s.courseTypes && x.id != id)
            && (forall x :: multiset(t.courseTypes)[x] == if x.id == id then 0 else multiset(s.courseTypes)[x]))
      && (t == s <==> CourseTypeInUse(s, id) || !CourseTypeExists(s, id))
  {
    var r := Reduce(s, DeleteCourseType(id));
    if !CourseTypeInUse(s, id) {
      var kept := Filter(s.courseTypes, HasOtherId(id));
      assert r.state == s.(courseTypes := kept);
      FilterUnchangedIff(s.courseTypes, HasOtherId(id));
      FilterMultiset(s.courseTypes, HasOtherId(id));
      var idx := FilterEmbeds(s.courseTypes, HasOtherId(id));
      assert kept == s.courseTypes <==> !CourseTypeExists(s, id);
    }
  }

  /** Deleting a course is refused exactly when an offering uses it; otherwise it removes
      exactly the courses with that id. */
  lemma DeleteCourseGuard(s: AppState, id: string)
    ensures var r := Reduce(s, DeleteCourse(id)); var t := r.state;
      && (r.alert.Some? <==> CourseInUse(s, id))
      && (r.alert.Some? ==> r.alert == Some(CourseInUseAlert))
      && (!CourseInUse(s, id) ==>
            && t == s.(courses := t.courses)
            && SubsequenceOf(t.courses, s.courses)
            && (forall x :: x in t.courses <==> x in s.courses && x.id != id)
            && (forall x :: multiset(t.courses)[x] == if x.id == id then 0 else multiset(s.courses)[x]))
      && (t == s <==> CourseInUse(s, id) || !CourseExists(s, id))
  {
    var r := Reduce(s, DeleteCourse(id));
    if !CourseInUse(s, id) {
      var kept := Filter(s.courses, HasOtherId(id));
      assert r.state == s.(courses := kept);
      FilterUnchangedIff(s.courses, HasOtherId(id));
      FilterMultiset(s.courses, HasOtherId(id));
      var idx := FilterEmbeds(s.courses, HasOtherId(id));
      assert kept == s.courses <==> !CourseExists(s, id);
    }
  }

  /** Deleting an offering is refused exactly when a registration uses it; otherwise it
      removes exactly the offerings with that id. */
  lemma DeleteOfferingGuard(s: AppState, id: string)
    ensures var r := Reduce(s, DeleteCourseOffering(id)); var t := r.state;
      && (r.alert.Some? <==> OfferingInUse(s, id))
      && (r.alert.Some? ==> r.alert == Some(OfferingInUseAlert))
      && (!OfferingInUse(s, id) ==>
            && t == s.(courseOfferings := t.courseOfferings)
            && SubsequenceOf(t.courseOfferings, s.courseOfferings)
            && (forall o :: o in t.courseOfferings <==> o in s.courseOfferings && o.id != id)
            && (forall o :: multiset(t.courseOfferings)[o] ==
                              if o.id == id then 0 else multiset(s.courseOfferings)[o]))
      && (t == s <==> OfferingInUse(s, id) || !OfferingExists(s, id))
  {
    var r := Reduce(s, DeleteCourseOffering(id));
    if !OfferingInUse(s, id) {
      var kept := Filter(s.courseOfferings, OfferingHasOtherId(id));
      assert r.state == s.(courseOfferings := kept);
      FilterUnchangedIff(s.courseOfferings, OfferingHasOtherId(id));
      FilterMultiset(s.courseOfferings, OfferingHasOtherId(id));
      var idx := FilterEmbeds(s.courseOfferings, OfferingHasOtherId(id));
      assert kept == s.courseOfferings <==> !OfferingExists(s, id);
    }
  }

  /** Deleting a registration is never refused, is idempotent, and leaves the snapshot
      equal when no registration has that id. */
  lemma DeleteRegistrationLaws(s: AppState, id: string)
    ensures var r := Reduce(s, DeleteRegistration(id)); var t := r.state;
      && r.alert.None?
      && t == s.(registrations := t.registrations)
      && (forall g :: g in t.registrations <==> g in s.registrations && g.id != id)
      && (forall g :: multiset(t.registrations)[g] == if g.id == id then 0 else multiset(s.registrations)[g])
      && SubsequenceOf(t.registrations, s.registrations)
      && Reduce(t, DeleteRegistration(id)) == r
      && ((forall i :: 0 <= i < |s.registrations| ==> s.registrations[i].id != id) ==> t == s)
  {
    FilterIdempotent(s.registrations, RegistrationHasOtherId(id));
    FilterUnchangedIff(s.registrations, RegistrationHasOtherId(id));
    FilterMultiset(s.registrations, RegistrationHasOtherId(id));
    var idx := FilterEmbeds(s.registrations, RegistrationHasOtherId(id));
  }

  // ---------------------------------------------------------------------------------
  // The store alone keeps referential integrity

  lemma UpdateKeepsNamedIds(xs: seq<Named>, x: Named, id: string)
    ensures (exists i :: 0 <= i < |xs| && xs[i].id == id) ==>
            (exists i :: 0 <= i < |ReplaceWhere(xs, HasId(x.id), x)| && ReplaceWhere(xs, HasId(x.id), x)[i].id == id)
  {
    var ys := ReplaceWhere(xs, HasId(x.id), x);
    forall i | 0 <= i < |xs| ensures ys[i].id == xs[i].id {
      assert ys[i] == if xs[i].id == x.id then x else xs[i];
    }
  }

  /** Every action keeps the references resolvable, provided a newly added or updated
      offering or registration names existing rows; the delete guards alone keep deletes
      from orphaning anything. An added registration must name a stored student: the
      registration form's submit meets this by dispatching ADD_STUDENT for that student
      first (see `StudentRegistrations.StudentThenRegistrationPreservesConsistency`). */
  lemma ReducePreservesIntegrity(s: AppState, a: Action)
    requires ReferentialIntegrity(s) && RegistrationsHaveStudents(s)
    requires Resolvable(s, a)
    ensures ReferentialIntegrity(Reduce(s, a).state) && RegistrationsHaveStudents(Reduce(s, a).state)
  {
    if a.AddCourseType? || a.UpdateCourseType? || a.DeleteCourseType? {
      CourseTypeActionPreservesIntegrity(s, a);
    } else if a.AddCourse? || a.UpdateCourse? || a.DeleteCourse? {
      CourseActionPreservesIntegrity(s, a);
    } else if a.AddCourseOffering? || a.UpdateCourseOffering? || a.DeleteCourseOffering? {
      OfferingActionPreservesIntegrity(s, a);
    } else {
      RegistrationActionPreservesIntegrity(s, a);
    }
  }

  lemma CourseTypeActionPreservesIntegrity(s: AppState, a: Action)
    requires ReferentialIntegrity(s) && RegistrationsHaveStudents(s)
    requires a.AddCourseType? || a.UpdateCourseType? || a.DeleteCourseType?
    ensures ReferentialIntegrity(Reduce(s, a).state) && RegistrationsHaveStudents(Reduce(s, a).state)
  {
    var t := Reduce(s, a).state;
    match a
    case AddCourseType(ct) =>
      assert t == s.(courseTypes := s.courseTypes + [ct]);
      forall id | CourseTypeExists(s, id) ensures CourseTypeExists(t, id) {
        var i :| 0 <= i < |s.courseTypes| && s.courseTypes[i].id == id;
        assert t.courseTypes[i] == s.courseTypes[i];
      }
    case UpdateCourseType(ct) =>
      assert t == s.(courseTypes := t.courseTypes);
      forall id | CourseTypeExists(s, id) ensures CourseTypeExists(t, id) {
        UpdateKeepsNamedIds(s.courseTypes, ct, id);
      }
    case DeleteCourseType(id) =>
      if !Blocked(s, a) {
        assert t == s.(courseTypes := t.courseTypes);
        forall i | 0 <= i < |s.courseOfferings| ensures CourseTypeExists(t, s.courseOfferings[i].courseTypeId) {
          var j :| 0 <= j < |s.courseTypes| && s.courseTypes[j].id == s.courseOfferings[i].courseTypeId;
          var k := FilterKeeps(s.courseTypes, HasOtherId(id), j);
        }
      }
  }

  lemma CourseActionPreservesIntegrity(s: AppState, a: Action)
    requires ReferentialIntegrity(s) && RegistrationsHaveStudents(s)
    requires a.AddCourse? || a.UpdateCourse? || a.DeleteCourse?
    ensures ReferentialIntegrity(Reduce(s, a).state) && RegistrationsHaveStudents(Reduce(s, a).state)
  {
    var t := Reduce(s, a).state;
    match a
    case AddCourse(c) =>
      assert t == s.(courses := s.courses + [c]);
      forall id | CourseExists(s, id) ensures CourseExists(t, id) {
        var i :| 0 <= i < |s.courses| && s.courses[i].id == id;
        assert t.courses[i] == s.courses[i];
      }
    case UpdateCourse(c) =>
      assert t == s.(courses := t.courses);
      forall id | CourseExists(s, id) ensures CourseExists(t, id) {
        UpdateKeepsNamedIds(s.courses, c, id);
      }
    case DeleteCourse(id) =>
      if !Blocked(s, a) {
        assert t == s.(courses := t.courses);
        forall i | 0 <= i < |s.courseOfferings| ensures CourseExists(t, s.courseOfferings[i].courseId) {
          var j :| 0 <= j < |s.courses| && s.courses[j].id == s.courseOfferings[i].courseId;
          var k := FilterKeeps(s.courses, HasOtherId(id), j);
        }
      }
  }

  lemma OfferingActionPreservesIntegrity(s: AppState, a: Action)
    requires ReferentialIntegrity(s) && RegistrationsHaveStudents(s)
    requires Resolvable(s, a)
    requires a.AddCourseOffering? || a.UpdateCourseOffering? || a.DeleteCourseOffering?
    ensures ReferentialIntegrity(Reduce(s, a).state) && RegistrationsHaveStudents(Reduce(s, a).state)
  {
    var t := Reduce(s, a).state;
    match a
    case AddCourseOffering(o) =>
      assert t == s.(courseOfferings := s.courseOfferings + [o]);
      forall id | OfferingExists(s, id) ensures OfferingExists(t, id) {
        var i :| 0 <= i < |s.courseOfferings| && s.courseOfferings[i].id == id;
        assert t.courseOfferings[i] == s.courseOfferings[i];
      }
    case UpdateCourseOffering(o) =>
      assert t == s.(courseOfferings := t.courseOfferings);
      forall id | OfferingExists(s, id) ensures OfferingExists(t, id) {
        var i :| 0 <= i < |s.courseOfferings| && s.courseOfferings[i].id == id;
        assert t.courseOfferings[i].id == id;
      }
    case DeleteCourseOffering(id) =>
      DeleteOfferingPreservesIntegrity(s, id);
  }

  lemma DeleteOfferingPreservesIntegrity(s: AppState, id: string)
    requires ReferentialIntegrity(s) && RegistrationsHaveStudents(s)
    ensures var t := Reduce(s, DeleteCourseOffering(id)).state;
            ReferentialIntegrity(t) && RegistrationsHaveStudents(t)
  {
    if !OfferingInUse(s, id) {
      assert Reduce(s, DeleteCourseOffering(id)).state == WithoutOffering(s, id);
      WithoutOfferingIntegrity(s, id);
    }
  }

  /** The snapshot an unrefused DELETE_COURSE_OFFERING produces. */
  function WithoutOffering(s: AppState, id: string): AppState
  {
    s.(courseOfferings := Filter(s.courseOfferings, OfferingHasOtherId(id)))
  }

  lemma WithoutOfferingIntegrity(s: AppState, id: string)
    requires ReferentialIntegrity(s) && RegistrationsHaveStudents(s) && !OfferingInUse(s, id)
    ensures ReferentialIntegrity(WithoutOffering(s, id)) && RegistrationsHaveStudents(WithoutOffering(s, id))
  {
    var t := WithoutOffering(s, id);
    forall i | 0 <= i < |s.registrations| ensures OfferingExists(t, s.registrations[i].courseOfferingId) {
      var j :| 0 <= j < |s.courseOfferings| && s.courseOfferings[j].id == s.registrations[i].courseOfferingId;
      var k := FilterKeeps(s.courseOfferings, OfferingHasOtherId(id), j);
    }
    forall k | 0 <= k < |t.courseOfferings|
      ensures CourseExists(t, t.courseOfferings[k].courseId)
      ensures CourseTypeExists(t, t.courseOfferings[k].courseTypeId)
    {
      var a := FilterSource(s.courseOfferings, OfferingHasOtherId(id), k);
    }
  }

  lemma RegistrationActionPreservesIntegrity(s: AppState, a: Action)
    requires ReferentialIntegrity(s) && RegistrationsHaveStudents(s)
    requires Resolvable(s, a)
    requires a.AddStudent? || a.AddRegistration? || a.DeleteRegistration?
    ensures ReferentialIntegrity(Reduce(s, a).state) && RegistrationsHaveStudents(Reduce(s, a).state)
  {
    var t := Reduce(s, a).state;
    match a
    case AddStudent(st) =>
      assert t == s.(students := s.students + [st]);
      forall id | StudentExists(s, id) ensures StudentExists(t, id) {
        var i :| 0 <= i < |s.students| && s.students[i].id == id;
        assert t.students[i] == s.students[i];
      }
    case AddRegistration(reg) =>
      assert t == s.(registrations := s.registrations + [reg]);
    case DeleteRegistration(id) =>
      assert t == s.(registrations := t.registrations);
      forall k | 0 <= k < |t.registrations|
        ensures OfferingExists(t, t.registrations[k].courseOfferingId)
        ensures StudentExists(t, t.registrations[k].studentId)
      {
        var a := FilterSource(s.registrations, RegistrationHasOtherId(id), k);
      }
  }

  /** No delete, refused or not, breaks any invariant. */
  lemma DeletePreservesConsistency(s: AppState, a: Action)
    requires Consistent(s)
    requires a.DeleteCourseType? || a.DeleteCourse? || a.DeleteCourseOffering? || a.DeleteRegistration?
    ensures Consistent(Reduce(s, a).state)
  {
    ReducePreservesIntegrity(s, a);
    DeleteKeepsKeys(s, a);
  }

  lemma DeleteKeepsKeys(s: AppState, a: Action)
    requires KeysUnique(s)
    requires a.DeleteCourseType? || a.DeleteCourse? || a.DeleteCourseOffering? || a.DeleteRegistration?
    ensures KeysUnique(Reduce(s, a).state)
  {
    var t := Reduce(s, a).state;
    if !Blocked(s, a) {
      match a
      case DeleteCourseType(id) =>
        assert t == s.(courseTypes := Filter(s.courseTypes, HasOtherId(id)));
        FilterDistinct(s.courseTypes, HasOtherId(id), IdOf);
        FilterDistinct(s.courseTypes, HasOtherId(id), FoldedName);
      case DeleteCourse(id) =>
        assert t == s.(courses := Filter(s.courses, HasOtherId(id)));
        FilterDistinct(s.courses, HasOtherId(id), IdOf);
        FilterDistinct(s.courses, HasOtherId(id), FoldedName);
      case DeleteCourseOffering(id) =>
        assert t == s.(courseOfferings := Filter(s.courseOfferings, OfferingHasOtherId(id)));
        FilterDistinct(s.courseOfferings, OfferingHasOtherId(id), OfferingIdOf);
        FilterDistinct(s.courseOfferings, OfferingHasOtherId(id), PairOf);
      case DeleteRegistration(id) =>
        assert t == s.(registrations := t.registrations);
    }
  }

  /** The starting snapshot satisfies every invariant. */
  lemma InitialStateConsistent()
    ensures Consistent(InitialState)
  {
    InitialReferences();
    InitialKeys();
  }

  lemma InitialReferences()
    ensures ReferentialIntegrity(InitialState) && RegistrationsHaveStudents(InitialState)
  {
    InitialOfferingReferences();
    var s := InitialState;
    assert OfferingExists(s, "co1") by { assert s.courseOfferings[0].id == "co1"; }
    assert StudentExists(s, "s1") by { assert s.students[0].id == "s1"; }
  }

  lemma InitialOfferingReferences()
    ensures forall i :: 0 <= i < |InitialState.courseOfferings| ==>
              CourseExists(InitialState, InitialState.courseOfferings[i].courseId)
              && CourseTypeExists(InitialState, InitialState.courseOfferings[i].courseTypeId)
  {
    var s := InitialState;
    assert CourseExists(s, "c1") by { assert s.courses[0].id == "c1"; }
    assert CourseExists(s, "c2") by { assert s.courses[1].id == "c2"; }
    assert CourseTypeExists(s, "ct1") by { assert s.courseTypes[0].id == "ct1"; }
    assert CourseTypeExists(s, "ct2") by { assert s.courseTypes[1].id == "ct2"; }
  }

  lemma InitialKeys()
    ensures KeysUnique(InitialState)
  {
    InitialNames();
    InitialIds();
  }

  lemma InitialNames()
    ensures DistinctBy(InitialState.courseTypes, FoldedName)
    ensures DistinctBy(InitialState.courses, FoldedName)
  {
    var cts := InitialState.courseTypes;
    var cs := InitialState.courses;
    assert |FoldedName(cts[0])| == 10 && |FoldedName(cts[1])| == 5 && |FoldedName(cts[2])| == 7;
    assert |FoldedName(cs[0])| == 5 && |FoldedName(cs[1])| == 7 && |FoldedName(cs[2])| == 4;
  }

  lemma InitialIds()
    ensures DistinctBy(InitialState.courseTypes, IdOf)
    ensures DistinctBy(InitialState.courses, IdOf)
    ensures DistinctBy(InitialState.courseOfferings, OfferingIdOf)
    ensures DistinctBy(InitialState.courseOfferings, PairOf)
  {
    var s := InitialState;
    assert IdOf(s.courseTypes[0])[2] == '1' && IdOf(s.courseTypes[1])[2] == '2' && IdOf(s.courseTypes[2])[2] == '3';
    assert IdOf(s.courses[0])[1] == '1' && IdOf(s.courses[1])[1] == '2' && IdOf(s.courses[2])[1] == '3';
    assert OfferingIdOf(s.courseOfferings[0])[2] == '1' && OfferingIdOf(s.courseOfferings[1])[2] == '2';
    assert PairOf(s.courseOfferings[0]).0[1] == '1' && PairOf(s.courseOfferings[1]).0[1] == '2';
  }

  /** The store itself does not check offering pairs: dispatched directly, an offering that
      repeats the seed's (c2, ct2) pair is appended and the pairs are no longer unique. */
  lemma StoreAcceptsDuplicatePair()
    ensures var t := Reduce(InitialState, AddCourseOffering(CourseOffering("co3", "c2", "ct2"))).state;
      |t.courseOfferings| == 3 && !DistinctBy(t.courseOfferings, PairOf)
  {
    var t := Reduce(InitialState, AddCourseOffering(CourseOffering("co3", "c2", "ct2"))).state;
    assert PairOf(t.courseOfferings[1]) == PairOf(t.courseOfferings[2]);
  }

  /** With course type ct1 and course c1: once offering co1 pairs them, deleting c1 is
      refused; after co1 is deleted, deleting c1 succeeds. */
  lemma DeleteAfterUnlinking()
    ensures var s0 := AppState([Named("ct1", "Individual")], [Named("c1", "Hindi")], [], [], []);
      var s1 := Reduce(s0, AddCourseOffering(CourseOffering("co1", "c1", "ct1"))).state;
      var refused := Reduce(s1, DeleteCourse("c1"));
      var s2 := Reduce(s1, DeleteCourseOffering("co1")).state;
      && refused.alert == Some(CourseInUseAlert) && refused.state == s1
      && Reduce(s2, DeleteCourse("c1")).alert.None?
      && Reduce(s2, DeleteCourse("c1")).state.courses == []
  {
    var s0 := AppState([Named("ct1", "Individual")], [Named("c1", "Hindi")], [], [], []);
    var s1 := Reduce(s0, AddCourseOffering(CourseOffering("co1", "c1", "ct1"))).state;
    assert s1.courseOfferings[0].courseId == "c1";
    var s2 := Reduce(s1, DeleteCourseOffering("co1")).state;
    assert s2.courseOfferings == [];
  }
}
