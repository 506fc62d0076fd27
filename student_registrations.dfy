/** The student-registration screen: the course-type filter, the registration form's
    ordered checks (with the e-mail pattern), the submit handler that adds a student and
    a registration for it, the confirmed delete of a registration, and the lookups the
    lists are rendered from. */
module StudentRegistrations {
  import opened Wrappers
  import opened Seqs
  import opened Text
  import opened AppContext

  const AllTypes := "all"
  const NameRequired := "Student name is required"
  const EmailRequired := "Student email is required"
  const EmailInvalid := "Please enter a valid email address"
  const PhoneRequired := "Student phone is required"
  const SelectOffering := "Please select a course offering"
  const StudentPrefix := "s"
  const RegistrationPrefix := "r"
  const UnknownCourse := "Unknown Course"
  const UnknownType := "Unknown Type"
  const UnknownOffering := "Unknown Offering"

  datatype RegistrationForm = RegistrationForm(studentName: string, studentEmail: string,
                                               studentPhone: string, courseOfferingId: string)

  /** A registration row of the student list, with its student when one has that id. */
  datatype Enrolment = Enrolment(registration: Registration, student: Option<Student>)

  // ---------------------------------------------------------------------------------
  // Filtering offerings by course type

  /** Whether an offering passes the course-type filter. */
  predicate Shown(filter: string, o: CourseOffering)
  {
    filter == AllTypes || o.courseTypeId == filter
  }

  /** `filteredOfferings`: every offering for "all", otherwise those of the chosen course
      type, in store order. */
  function FilteredOfferings(s: AppState, filter: string): (r: seq<CourseOffering>)
    ensures filter == AllTypes ==> r == s.courseOfferings
    ensures forall o :: o in r <==> o in s.courseOfferings && Shown(filter, o)
    ensures forall o :: multiset(r)[o] == if Shown(filter, o) then multiset(s.courseOfferings)[o] else 0
  {
    FilterMultiset(s.courseOfferings, OfType(filter));
    if filter == AllTypes then s.courseOfferings else Filter(s.courseOfferings, OfType(filter))
  }

  /** Filtering keeps the store's order: the filtered offerings are the store's offerings
      with some left out and the rest in their stored order. */
  lemma FilteredOfferingsKeepOrder(s: AppState, filter: string)
    ensures SubsequenceOf(FilteredOfferings(s, filter), s.courseOfferings)
  {
    if filter != AllTypes {
      var idx := FilterEmbeds(s.courseOfferings, OfType(filter));
    } else {
      var idx := seq(|s.courseOfferings|, i requires 0 <= i < |s.courseOfferings| => i);
      assert Embedding(idx, FilteredOfferings(s, filter), s.courseOfferings);
    }
  }

  /** The offering the registration dialog starts on: the first filtered offering, or the
      empty string when the filter leaves none (then the add button is disabled). */
  function DefaultOfferingId(s: AppState, filter: string): (r: string)
    ensures FilteredOfferings(s, filter) == [] ==> r == ""
    ensures FilteredOfferings(s, filter) != [] ==>
              exists k :: 0 <= k < |s.courseOfferings| && s.courseOfferings[k].id == r
                          && Shown(filter, s.courseOfferings[k])
                          && forall j :: 0 <= j < k ==> !Shown(filter, s.courseOfferings[j])
  {
    var f := FilteredOfferings(s, filter);
    if f == [] then ""
    else if filter == AllTypes then f[0].id
    else
      FilterHead(s.courseOfferings, OfType(filter));
      f[0].id
  }

  // ---------------------------------------------------------------------------------
  // The e-mail pattern

  /** A character of the class `[^\s@]`. */
  predicate Plain(c: char)
  {
    !IsSpace(c) && c != '@'
  }

  predicate AllPlain(t: string)
  {
    forall i :: 0 <= i < |t| ==> Plain(t[i])
  }

  /** What `/^[^\s@]+@[^\s@]+\.[^\s@]+$/` accepts: a non-empty run of `[^\s@]`, an '@',
      another non-empty run, a '.', and a last non-empty run, filling the whole string. */
  ghost predicate MatchesEmailPattern(e: string)
  {
    exists i, j :: 0 < i && i + 1 < j && j + 1 < |e| && e[i] == '@' && e[j] == '.'
                   && AllPlain(e[..i]) && AllPlain(e[i + 1..j]) && AllPlain(e[j + 1..])
  }

  function IsAt(c: char): bool { c == '@' }

  /** The e-mail test as a direct check: split at the first '@'; the part before it is
      non-empty and plain; the part after it is plain (so there is no second '@' and no
      white space) and has a '.' with at least one character on each side. */
  function IsEmail(e: string): (b: bool)
    ensures b ==> 5 <= |e| && !IsBlank(e)
    ensures b ==> '@' in e
    ensures b ==> forall i :: 0 <= i < |e| ==> (e[i] == '@' <==> i == FirstIndex(e, IsAt))
  {
    var at := FirstIndex(e, IsAt);
    assert 0 < at < |e| ==> e[0] == e[..at][0];
    assert 0 < at < |e| ==> forall i :: at < i < |e| ==> e[i] == e[at + 1..][i - at - 1];
    && 0 < at < |e|
    && AllPlain(e[..at])
    && var domain := e[at + 1..];
       AllPlain(domain) && |domain| >= 3 && '.' in domain[1..|domain| - 1]
  }

  /** The direct check accepts exactly what the regular expression matches. */
  lemma EmailCheckMatchesPattern(e: string)
    ensures IsEmail(e) <==> MatchesEmailPattern(e)
  {
    if IsEmail(e) {
      EmailCheckSound(e);
    }
    if MatchesEmailPattern(e) {
      EmailCheckComplete(e);
    }
  }

  lemma AllPlainSlice(t: string, a: int, b: int)
    requires AllPlain(t) && 0 <= a <= b <= |t|
    ensures AllPlain(t[a..b])
  {
    forall i | 0 <= i < b - a ensures Plain(t[a..b][i]) {
      assert t[a..b][i] == t[a + i];
    }
  }

  lemma AllPlainJoin(x: string, y: string, z: string)
    requires AllPlain(x) && AllPlain(y) && AllPlain(z)
    ensures AllPlain(x + y + z)
  {
    var w := x + y + z;
    forall i | 0 <= i < |w| ensures Plain(w[i]) {
      if i < |x| {
        assert w[i] == x[i];
      } else if i < |x| + |y| {
        assert w[i] == y[i - |x|];
      } else {
        assert w[i] == z[i - |x| - |y|];
      }
    }
  }

  lemma EmailCheckSound(e: string)
    requires IsEmail(e)
    ensures MatchesEmailPattern(e)
  {
    var at := FirstIndex(e, IsAt);
    var domain := e[at + 1..];
    var inner := domain[1..|domain| - 1];
    var m :| 0 <= m < |inner| && inner[m] == '.';
    var j := at + 2 + m;
    assert e[j] == '.';
    assert e[at + 1..j] == domain[..m + 1];
    assert e[j + 1..] == domain[m + 2..];
    AllPlainSlice(domain, 0, m + 1);
    AllPlainSlice(domain, m + 2, |domain|);
    assert domain[m + 2..] == domain[m + 2..|domain|];
    assert e[at] == '@';
    assert 0 < at && at + 1 < j && j + 1 < |e| && e[at] == '@' && e[j] == '.'
           && AllPlain(e[..at]) && AllPlain(e[at + 1..j]) && AllPlain(e[j + 1..]);
  }

  lemma EmailCheckComplete(e: string)
    requires MatchesEmailPattern(e)
    ensures IsEmail(e)
  {
    var i, j :| 0 < i && i + 1 < j && j + 1 < |e| && e[i] == '@' && e[j] == '.'
                && AllPlain(e[..i]) && AllPlain(e[i + 1..j]) && AllPlain(e[j + 1..]);
    EmailCheckAccepts(e, i, j);
  }

  /** The direct check accepts a string split as the pattern describes at `i` and `j`. */
  lemma EmailCheckAccepts(e: string, i: int, j: int)
    requires 0 < i && i + 1 < j && j + 1 < |e| && e[i] == '@' && e[j] == '.'
    requires AllPlain(e[..i]) && AllPlain(e[i + 1..j]) && AllPlain(e[j + 1..])
    ensures IsEmail(e)
  {
    FirstAtFollowsPlain(e, i);
    DomainIsPlain(e, i, j);
    var domain := e[i + 1..];
    assert domain[1..|domain| - 1][j - i - 2] == '.';
    assert '.' in domain[1..|domain| - 1];
  }

  /** The two plain runs around the '.' make the whole domain plain. */
  lemma DomainIsPlain(e: string, i: int, j: int)
    requires 0 <= i && i + 1 < j && j + 1 < |e| && e[j] == '.'
    requires AllPlain(e[i + 1..j]) && AllPlain(e[j + 1..])
    ensures AllPlain(e[i + 1..])
  {
    assert e[i + 1..] == e[i + 1..j] + [e[j]] + e[j + 1..];
    assert AllPlain([e[j]]);
    AllPlainJoin(e[i + 1..j], [e[j]], e[j + 1..]);
  }

  /** An '@' preceded only by plain characters is the first '@'. */
  lemma FirstAtFollowsPlain(e: string, i: int)
    requires 0 <= i < |e| && e[i] == '@' && AllPlain(e[..i])
    ensures FirstIndex(e, IsAt) == i
  {
    forall k | 0 <= k < i ensures !IsAt(e[k]) {
      assert e[..i][k] == e[k];
    }
  }

  /** "jane@example.com" is accepted; "jane@example" and "jane.com" are not. */
  lemma EmailExamples()
    ensures MatchesEmailPattern("jane@example.com")
    ensures !MatchesEmailPattern("jane@example")
    ensures !MatchesEmailPattern("jane.com")
  {
    var good := "jane@example.com";
    assert AllPlain(good[..4]) && AllPlain(good[5..12]) && AllPlain(good[13..]);
    assert good[4] == '@' && good[12] == '.';
    forall i, j | 0 < i && i + 1 < j && j + 1 < |"jane@example"| && "jane@example"[i] == '@'
      ensures "jane@example"[j] != '.'
    {
    }
    forall i | 0 <= i < |"jane.com"| ensures "jane.com"[i] != '@' {
    }
  }

  // ---------------------------------------------------------------------------------
  // The registration form

  /** `validateForm`: blank name, blank e-mail, e-mail not matching the pattern, blank
      phone, no offering — checked in that order; the first failure is reported. The
      blank checks trim; the pattern is tested on the untrimmed e-mail. */
  function ValidateForm(form: RegistrationForm): (r: Outcome<string>)
    ensures r == Fail(NameRequired) <==> IsBlank(form.studentName)
    ensures r == Fail(EmailRequired) <==> !IsBlank(form.studentName) && IsBlank(form.studentEmail)
    ensures r == Fail(EmailInvalid) <==>
              !IsBlank(form.studentName) && !IsBlank(form.studentEmail) && !MatchesEmailPattern(form.studentEmail)
    ensures r == Fail(PhoneRequired) <==>
              !IsBlank(form.studentName) && !IsBlank(form.studentEmail) && MatchesEmailPattern(form.studentEmail)
              && IsBlank(form.studentPhone)
    ensures r == Fail(SelectOffering) <==>
              !IsBlank(form.studentName) && !IsBlank(form.studentEmail) && MatchesEmailPattern(form.studentEmail)
              && !IsBlank(form.studentPhone) && form.courseOfferingId == ""
    ensures r == Pass <==>
              !IsBlank(form.studentName) && MatchesEmailPattern(form.studentEmail)
              && !IsBlank(form.studentPhone) && form.courseOfferingId != ""
  {
    TrimEmptyIffBlank(form.studentName);
    TrimEmptyIffBlank(form.studentEmail);
    TrimEmptyIffBlank(form.studentPhone);
    EmailCheckMatchesPattern(form.studentEmail);
    EmailPatternIsNotBlank(form.studentEmail);
    if Trim(form.studentName) == [] then Fail(NameRequired)
    else if Trim(form.studentEmail) == [] then Fail(EmailRequired)
    else if !IsEmail(form.studentEmail) then Fail(EmailInvalid)
    else if Trim(form.studentPhone) == [] then Fail(PhoneRequired)
    else if form.courseOfferingId == "" then Fail(SelectOffering)
    else Pass
  }

  /** An address the pattern accepts is never blank: the blank-e-mail check cannot hide a
      well-formed address. */
  lemma EmailPatternIsNotBlank(e: string)
    ensures MatchesEmailPattern(e) ==> !IsBlank(e)
  {
    if MatchesEmailPattern(e) {
      var i, j :| 0 < i && i + 1 < j && j + 1 < |e| && e[i] == '@' && e[j] == '.'
                  && AllPlain(e[..i]) && AllPlain(e[i + 1..j]) && AllPlain(e[j + 1..]);
      assert !IsSpace(e[i]);
    }
  }

  /** `handleSubmit`: when the form fails, nothing is dispatched and the message is shown;
      otherwise exactly one ADD_STUDENT and then one ADD_REGISTRATION are dispatched, the
      registration naming the new student and the selected offering. `studentStamp` and
      `registrationStamp` are the two clock readings, `today` the date part of the ISO
      timestamp. */
  method HandleSubmit(s: AppState, form: RegistrationForm, studentStamp: nat, registrationStamp: nat,
                      today: string)
    returns (dispatched: seq<Action>, next: AppState, error: string)
    ensures next == ApplyAll(s, dispatched)
    ensures ValidateForm(form).Fail? ==> dispatched == [] && next == s && error == ValidateForm(form).error
    ensures ValidateForm(form).Pass? ==>
              && error == ""
              && |dispatched| == 2 && dispatched[0].AddStudent? && dispatched[1].AddRegistration?
              && dispatched[0].student ==
                   Student(StudentPrefix + Decimal(studentStamp), form.studentName, form.studentEmail, form.studentPhone)
              && dispatched[1].registration ==
                   Registration(RegistrationPrefix + Decimal(registrationStamp), dispatched[0].student.id,
                                form.courseOfferingId, today)
              && next == s.(students := s.students + [dispatched[0].student],
                            registrations := s.registrations + [dispatched[1].registration])
  {
    var verdict := ValidateForm(form);
    if verdict.Fail? {
      return [], s, verdict.error;
    }
    var student := Student(StudentPrefix + Decimal(studentStamp), form.studentName, form.studentEmail, form.studentPhone);
    var registration :=
      Registration(RegistrationPrefix + Decimal(registrationStamp), student.id, form.courseOfferingId, today);
    dispatched := [AddStudent(student), AddRegistration(registration)];
    next := ApplyAll(s, dispatched);
    error := "";
    StudentThenRegistration(s, student, registration);
  }

  /** Dispatching two actions is reducing by the first and then by the second. */
  lemma ApplyTwo(s: AppState, a: Action, b: Action)
    ensures ApplyAll(s, [a, b]) == Reduce(Reduce(s, a).state, b).state
  {
    var s1 := Reduce(s, a).state;
    assert [a, b][1..] == [b];
    assert ApplyAll(s, [a, b]) == ApplyAll(s1, [b]);
    assert [b][1..] == [];
    assert ApplyAll(s1, [b]) == ApplyAll(Reduce(s1, b).state, []);
  }

  /** Adding a student and then a registration appends one to each list and changes
      nothing else. */
  lemma StudentThenRegistration(s: AppState, student: Student, registration: Registration)
    ensures ApplyAll(s, [AddStudent(student), AddRegistration(registration)])
            == s.(students := s.students + [student], registrations := s.registrations + [registration])
  {
    AddAppends(s, AddStudent(student));
    var s1 := Reduce(s, AddStudent(student)).state;
    assert s1 == s.(students := s.students + [student]);
    AddAppends(s1, AddRegistration(registration));
    ApplyTwo(s, AddStudent(student), AddRegistration(registration));
  }

  /** Adding a student and then a registration for it keeps every invariant when the
      registration names a stored offering. */
  lemma StudentThenRegistrationPreservesConsistency(s: AppState, student: Student, registration: Registration)
    requires Consistent(s)
    requires registration.studentId == student.id
    requires OfferingExists(s, registration.courseOfferingId)
    ensures Consistent(ApplyAll(s, [AddStudent(student), AddRegistration(registration)]))
  {
    var t := s.(students := s.students + [student], registrations := s.registrations + [registration]);
    StudentThenRegistration(s, student, registration);
    assert t.courseTypes == s.courseTypes && t.courses == s.courses && t.courseOfferings == s.courseOfferings;
    assert StudentExists(t, student.id) by {
      assert t.students[|s.students|] == student;
    }
    forall i | 0 <= i < |t.registrations|
      ensures OfferingExists(t, t.registrations[i].courseOfferingId)
      ensures StudentExists(t, t.registrations[i].studentId)
    {
      if i < |s.registrations| {
        assert t.registrations[i] == s.registrations[i];
        assert OfferingExists(s, s.registrations[i].courseOfferingId);
        assert StudentExists(s, s.registrations[i].studentId);
        var j :| 0 <= j < |s.students| && s.students[j].id == s.registrations[i].studentId;
        assert t.students[j] == s.students[j];
      } else {
        assert t.registrations[i] == registration;
      }
    }
  }

  /** `handleDeleteRegistration`: the delete is dispatched only when the user confirms, and
      is never refused. */
  function HandleDeleteRegistration(s: AppState, id: string, confirmed: bool): (r: Step)
    ensures r.alert.None?
    ensures !confirmed ==> r.state == s
    ensures confirmed ==> r == Reduce(s, DeleteRegistration(id))
    ensures r.state == s.(registrations := r.state.registrations)
    ensures confirmed ==> forall g :: g in r.state.registrations <==> g in s.registrations && g.id != id
  {
    if confirmed then
      DeleteRegistrationLaws(s, id);
      Reduce(s, DeleteRegistration(id))
    else Step(s, None)
  }

  // ---------------------------------------------------------------------------------
  // Lookups

  function StudentHasId(id: string): Student -> bool { (st: Student) => st.id == id }

  function EnrolmentOf(s: AppState): Registration -> Enrolment
  {
    (g: Registration) => Enrolment(g, Find(s.students, StudentHasId(g.studentId)))
  }

  /** `getStudentsForOffering`: one row per registration for the offering, in registration
      order, each with the first student of that id, or none when there is no such student. */
  function StudentsForOffering(s: AppState, offeringId: string): (r: seq<Enrolment>)
    ensures |r| == Count(s.registrations, ForOffering(offeringId))
    ensures forall i :: 0 <= i < |r| ==>
              r[i].registration == Filter(s.registrations, ForOffering(offeringId))[i]
    ensures forall i :: 0 <= i < |r| ==>
              (r[i].student.None? <==> !StudentExists(s, r[i].registration.studentId))
    ensures forall i :: 0 <= i < |r| && r[i].student.Some? ==>
              r[i].student.value.id == r[i].registration.studentId
              && exists k :: 0 <= k < |s.students| && s.students[k] == r[i].student.value
                             && forall j :: 0 <= j < k ==> s.students[j].id != r[i].registration.studentId
  {
    Map(Filter(s.registrations, ForOffering(offeringId)), EnrolmentOf(s))
  }

  /** The rows of an offering are exactly its registrations: every row's registration is a
      stored registration for that offering, and every such registration has a row. */
  lemma StudentsForOfferingCovers(s: AppState, offeringId: string)
    ensures forall i :: 0 <= i < |StudentsForOffering(s, offeringId)| ==>
              StudentsForOffering(s, offeringId)[i].registration in s.registrations
              && StudentsForOffering(s, offeringId)[i].registration.courseOfferingId == offeringId
    ensures forall g :: g in s.registrations && g.courseOfferingId == offeringId ==>
              exists i :: 0 <= i < |StudentsForOffering(s, offeringId)|
                          && StudentsForOffering(s, offeringId)[i].registration == g
  {
    var regs := Filter(s.registrations, ForOffering(offeringId));
    var r := StudentsForOffering(s, offeringId);
    forall g | g in s.registrations && g.courseOfferingId == offeringId
      ensures exists i :: 0 <= i < |r| && r[i].registration == g
    {
      assert g in regs;
      var i :| 0 <= i < |regs| && regs[i] == g;
      assert r[i].registration == g;
    }
  }

  /** `getCourseName` on this screen: the first course's name, or "Unknown Course". */
  function CourseName(s: AppState, id: string): (r: string)
    ensures !CourseExists(s, id) ==> r == UnknownCourse
    ensures CourseExists(s, id) ==>
              exists k :: 0 <= k < |s.courses| && s.courses[k].id == id
                          && (forall j :: 0 <= j < k ==> s.courses[j].id != id) && r == s.courses[k].name
  {
    match Find(s.courses, HasId(id))
    case None => UnknownCourse
    case Some(c) => c.name
  }

  /** `getCourseTypeName` on this screen: the first course type's name, or "Unknown Type". */
  function CourseTypeName(s: AppState, id: string): (r: string)
    ensures !CourseTypeExists(s, id) ==> r == UnknownType
    ensures CourseTypeExists(s, id) ==>
              exists k :: 0 <= k < |s.courseTypes| && s.courseTypes[k].id == id
                          && (forall j :: 0 <= j < k ==> s.courseTypes[j].id != id) && r == s.courseTypes[k].name
  {
    match Find(s.courseTypes, HasId(id))
    case None => UnknownType
    case Some(c) => c.name
  }

  /** `getOfferingDisplayName`: "Unknown Offering", or the course type's name, " - ", and
      the course's name of the first offering with that id. */
  function OfferingDisplayName(s: AppState, offeringId: string): (r: string)
    ensures !OfferingExists(s, offeringId) ==> r == UnknownOffering
    ensures OfferingExists(s, offeringId) ==>
              exists k :: 0 <= k < |s.courseOfferings| && s.courseOfferings[k].id == offeringId
                          && (forall j :: 0 <= j < k ==> s.courseOfferings[j].id != offeringId)
                          && r == CourseTypeName(s, s.courseOfferings[k].courseTypeId) + " - "
                                  + CourseName(s, s.courseOfferings[k].courseId)
  {
    match Find(s.courseOfferings, OfferingHasId(offeringId))
    case None => UnknownOffering
    case Some(o) => CourseTypeName(s, o.courseTypeId) + " - " + CourseName(s, o.courseId)
  }

  /** In a store with referential integrity, a stored offering is displayed with the names
      of its own stored course type and course, never with a fallback. */
  lemma DisplayNameUsesStoredNames(s: AppState, offeringId: string)
    requires ReferentialIntegrity(s)
    requires OfferingExists(s, offeringId)
    ensures Find(s.courseOfferings, OfferingHasId(offeringId)).Some?
    ensures exists ct, c :: ct in s.courseTypes && c in s.courses
                            && ct.id == Find(s.courseOfferings, OfferingHasId(offeringId)).value.courseTypeId
                            && c.id == Find(s.courseOfferings, OfferingHasId(offeringId)).value.courseId
                            && OfferingDisplayName(s, offeringId) == ct.name + " - " + c.name
  {
    var o := Find(s.courseOfferings, OfferingHasId(offeringId)).value;
    assert o in s.courseOfferings;
    var ct := StoredCourseType(s, o);
    var c := StoredCourse(s, o);
    assert OfferingDisplayName(s, offeringId) == ct.name + " - " + c.name;
  }

  /** Under referential integrity, the course type of a stored offering is found. */
  lemma StoredCourseType(s: AppState, o: CourseOffering) returns (ct: Named)
    requires ReferentialIntegrity(s) && o in s.courseOfferings
    ensures ct in s.courseTypes && ct.id == o.courseTypeId && CourseTypeName(s, o.courseTypeId) == ct.name
  {
    var k :| 0 <= k < |s.courseOfferings| && s.courseOfferings[k] == o;
    assert CourseTypeExists(s, o.courseTypeId);
    ct := Find(s.courseTypes, HasId(o.courseTypeId)).value;
  }

  /** Under referential integrity, the course of a stored offering is found. */
  lemma StoredCourse(s: AppState, o: CourseOffering) returns (c: Named)
    requires ReferentialIntegrity(s) && o in s.courseOfferings
    ensures c in s.courses && c.id == o.courseId && CourseName(s, o.courseId) == c.name
  {
    var k :| 0 <= k < |s.courseOfferings| && s.courseOfferings[k] == o;
    assert CourseExists(s, o.courseId);
    c := Find(s.courses, HasId(o.courseId)).value;
  }
}
