# Course registration store — a verified model

The application keeps an in-memory relational store of five collections: course
types, courses, course offerings (a course paired with a course type), students and
registrations (a student in an offering on a date). The store changes only through
the reducer `appReducer`. Each of its twelve actions returns a new snapshot:

- adds append to a collection;
- updates replace every element with the payload's id;
- deletes filter elements out.

Three deletes are guarded. The store refuses to delete a course type or a course that
an offering uses, and an offering that has registrations. A refusal raises a notice and
leaves the snapshot unchanged.

Four screens sit in front of the store. Each decides whether to dispatch at all:

- course-type and course names must be non-blank and unique ignoring case;
- an offering's (course, course type) pair must be unique;
- the registration form runs ordered checks, including an e-mail pattern, then adds a
  student and a registration for that student together.

The model is pure where the source is pure:

- The reducer is the function `AppContext.Reduce`. It returns the new snapshot and the
  notice, if any.
- The screens' checks and payload builders are functions that return a verdict and the
  action to dispatch.
- The registration screen's submit handler performs two ordered dispatches. It is a
  method, `StudentRegistrations.HandleSubmit`.

Modules:

- `Wrappers`: `Option` and `Outcome`.
- `Seqs`: the array methods the source uses (`some`, `filter`, `filter().length`,
  `find`, `map`) with their laws.
- `Text`: JavaScript white space, `trim`, `toLowerCase`, and decimal rendering of
  clock readings.
- `AppContext`: the entities, actions, seed, reducer and store invariants.
- `NameRules`: the name check shared by the course-type and course screens.
- `CourseTypes`, `Courses`, `CourseOfferings`, `StudentRegistrations`: one module per
  screen.

The model proves two things separately:

- the reducer alone keeps references resolvable under every delete, and every action
  keeps them resolvable when the added or updated offering or registration names
  stored rows;
- "validate, then dispatch" keeps the uniqueness invariants, which the reducer itself
  never checks (`AppContext.StoreAcceptsDuplicatePair` shows the store accepting a
  duplicate pair).

## Model

| member | source | states |
|---|---|---|
| AppContext.Reduce | src/context/AppContext.tsx:84-176 | the reducer raises a notice exactly when the action is a guarded delete whose target is in use, and then returns the snapshot unchanged |
| AppContext.AddAppends | src/context/AppContext.tsx:86-167 | ADD_COURSE_TYPE, ADD_COURSE, ADD_COURSE_OFFERING, ADD_STUDENT and ADD_REGISTRATION each append the payload as the last element of exactly one collection; nothing else changes and no notice is raised |
| AppContext.UpdateReplacesById | src/context/AppContext.tsx:91-145 | each UPDATE_* keeps length, order and every id; an element whose id is the payload's becomes the payload, and every other element and collection is unchanged |
| AppContext.DeleteCourseTypeGuard | src/context/AppContext.tsx:98-109 | DELETE_COURSE_TYPE raises the in-use notice iff an offering uses the type; otherwise it removes exactly the course types with that id, and the survivors are the old course types with those left out, in their stored order (a subsequence), each as often as before; no other collection changes; the snapshot is unchanged iff the delete is refused or no course type has the id |
| AppContext.DeleteCourseGuard | src/context/AppContext.tsx:122-133 | the same for DELETE_COURSE, with courses and the offerings that use them |
| AppContext.DeleteOfferingGuard | src/context/AppContext.tsx:146-157 | the same for DELETE_COURSE_OFFERING, with offerings and the registrations that use them |
| AppContext.DeleteRegistrationLaws | src/context/AppContext.tsx:168-172 | DELETE_REGISTRATION is never refused, removes exactly the registrations with that id, and the survivors are the old registrations with those left out, in their stored order (a subsequence), each as often as before; no other collection changes; it is idempotent, and leaves the snapshot equal when no registration has the id |
| AppContext.ReducePreservesIntegrity | src/context/AppContext.tsx:84-176 | every action keeps offerings pointing at stored courses and course types, registrations at stored offerings, and registrations at stored students, provided an added or updated offering or an added registration names stored rows |
| AppContext.DeleteOfferingPreservesIntegrity | src/context/AppContext.tsx:146-157 | the guard on DELETE_COURSE_OFFERING is enough to keep every registration's offering stored |
| AppContext.DeletePreservesConsistency | src/context/AppContext.tsx:98-172 | no delete, refused or not, breaks referential integrity or the uniqueness of ids, folded names or offering pairs |
| AppContext.DeleteKeepsKeys | src/context/AppContext.tsx:98-172 | deletes keep ids, names ignoring case and offering pairs unique |
| AppContext.InitialStateConsistent | src/context/AppContext.tsx:59-81 | the seed has referential integrity, unique ids, names unique ignoring case, and unique offering pairs |
| AppContext.StoreAcceptsDuplicatePair | src/context/AppContext.tsx:134-138 | dispatched directly, an offering repeating the seed's (c2, ct2) pair is appended, so the store alone does not keep pairs unique |
| AppContext.DeleteAfterUnlinking | src/context/AppContext.tsx:122-157 | a course used by an offering cannot be deleted; after that offering is deleted, the course can be |
| NameRules.ValidateName | src/components/CourseTypes/CourseTypes.tsx:31-54 | the name check fails with the "required" message iff the name is blank, fails with the "already exists" message iff it is not blank and another entry (not the one being edited) has the same name ignoring case, and passes otherwise |
| NameRules.Payload | src/components/CourseTypes/CourseTypes.tsx:61-79 | an edit keeps the entry's id and replaces only the name; an add's id is the prefix followed by the clock reading; the stored name is the untrimmed input |
| NameRules.AppendKeepsNames | src/components/CourseTypes/CourseTypes.tsx:37-41 | appending a name that clashes with no stored name keeps names unique ignoring case, whatever the new id |
| NameRules.ReplaceKeepsNames | src/components/CourseTypes/CourseTypes.tsx:43-50 | in a list whose ids are unique, renaming the entry with an id to a name no other entry has keeps names unique ignoring case |
| NameRules.AppendKeepsKeys | src/components/CourseTypes/CourseTypes.tsx:37-41 | appending a name that clashes with no stored name, under a fresh id, keeps ids and names ignoring case unique |
| NameRules.ReplaceKeepsKeys | src/components/CourseTypes/CourseTypes.tsx:43-50 | in a list whose ids and names ignoring case are unique, renaming the entry with an id to a name no other entry has keeps ids and names ignoring case unique |
| CourseTypes.ValidateForm | src/components/CourseTypes/CourseTypes.tsx:31-54 | "Course type name is required" iff blank; "A course type with this name already exists" iff not blank and another course type has the name ignoring case; pass otherwise |
| CourseTypes.HandleSubmit | src/components/CourseTypes/CourseTypes.tsx:56-82 | nothing is dispatched iff the check fails, and the check's message is shown; an edit dispatches UPDATE_COURSE_TYPE with only the name replaced; an add dispatches ADD_COURSE_TYPE with a "ct" id and the untrimmed name |
| CourseTypes.UsageCount | src/components/CourseTypes/CourseTypes.tsx:136 | the number of offerings of the course type is at most the number of offerings, and is zero iff no offering names the course type |
| CourseTypes.UsageCountBlocksDelete | src/components/CourseTypes/CourseTypes.tsx:136 | the "used in N course offerings" count is positive exactly when the store would refuse to delete the course type |
| CourseTypes.HandleDelete | src/components/CourseTypes/CourseTypes.tsx:84-88 | without confirmation nothing happens; with confirmation DELETE_COURSE_TYPE is dispatched: it is refused, leaving the snapshot unchanged, iff the usage count is positive, and otherwise removes exactly the course types with that id; no other collection changes |
| CourseTypes.SubmitPreservesConsistency | src/components/CourseTypes/CourseTypes.tsx:31-82 | validate-then-dispatch keeps every store invariant, including names unique ignoring case, given a fresh id for an add |
| CourseTypes.SubmitKeepsNamesUnique | src/components/CourseTypes/CourseTypes.tsx:31-82 | when course-type ids and names are unique (other collections unconstrained), a dispatched submit keeps course type names unique ignoring case, whatever id an add gets |
| CourseTypes.ClockCollisionThenEditDuplicatesNames | src/components/CourseTypes/CourseTypes.tsx:37-78 | an add whose clock reading repeats a stored id passes the check; editing one of the two rows then renames both, so two course types share a name |
| CourseTypes.RenameToCaseVariantPasses | src/components/CourseTypes/CourseTypes.tsx:44-50 | in a store with unique names (ids may repeat), renaming a course type to a case variant of its own name passes the check |
| Courses.ValidateForm | src/components/Courses/Courses.tsx:31-54 | "Course name is required" iff blank; "A course with this name already exists" iff not blank and another course has the name ignoring case; pass otherwise |
| Courses.HandleSubmit | src/components/Courses/Courses.tsx:56-82 | nothing is dispatched iff the check fails; an edit dispatches UPDATE_COURSE with only the name replaced; an add dispatches ADD_COURSE with a "c" id |
| Courses.UsageCount | src/components/Courses/Courses.tsx:136 | the number of offerings of the course is at most the number of offerings, and is zero iff no offering names the course |
| Courses.UsageCountBlocksDelete | src/components/Courses/Courses.tsx:136 | the usage count is positive exactly when the store would refuse to delete the course |
| Courses.HandleDelete | src/components/Courses/Courses.tsx:84-88 | without confirmation nothing happens; with confirmation DELETE_COURSE is dispatched: it is refused, leaving the snapshot unchanged, iff the usage count is positive, and otherwise removes exactly the courses with that id; no other collection changes |
| Courses.SubmitPreservesConsistency | src/components/Courses/Courses.tsx:31-82 | validate-then-dispatch keeps every store invariant, including course names unique ignoring case, given a fresh id for an add |
| Courses.SubmitKeepsNamesUnique | src/components/Courses/Courses.tsx:31-82 | when course ids and names are unique (other collections unconstrained), a dispatched submit keeps course names unique ignoring case, whatever id an add gets |
| Courses.RenameToCaseVariantPasses | src/components/Courses/Courses.tsx:44-50 | in a store with unique names (ids may repeat), renaming a course to a case variant of its own name passes the check |
| Courses.TrailingSpaceIsNotADuplicate | src/components/Courses/Courses.tsx:32-41 | the emptiness test trims but the duplicate test does not: "Hindi " passes next to a stored "Hindi" |
| CourseOfferings.ValidateForm | src/components/CourseOfferings/CourseOfferings.tsx:43-73 | "Please select both a course and a course type" iff a selection is empty; "This course offering combination already exists" iff both are made and another offering (not the one being edited) has the pair; pass otherwise |
| CourseOfferings.HandleSubmit | src/components/CourseOfferings/CourseOfferings.tsx:75-99 | nothing is dispatched iff the check fails; an edit keeps the offering's id and replaces only course and course type; an add gets a "co" id |
| CourseOfferings.SubmitPreservesConsistency | src/components/CourseOfferings/CourseOfferings.tsx:43-99 | validate-then-dispatch keeps every store invariant, including unique pairs, when the selections name stored rows and an add gets a fresh id |
| CourseOfferings.SubmitKeepsPairsUnique | src/components/CourseOfferings/CourseOfferings.tsx:43-99 | when offering ids and pairs are unique (other collections unconstrained), a dispatched submit keeps course/course-type pairs unique, whatever id an add gets and whatever its selections name |
| CourseOfferings.KeepOwnPairPasses | src/components/CourseOfferings/CourseOfferings.tsx:59-70 | in a store with unique pairs (ids may repeat), saving an edited offering with its own course and course type passes the check |
| CourseOfferings.ClockCollisionThenEditDuplicatesPairs | src/components/CourseOfferings/CourseOfferings.tsx:48-95 | an add whose clock reading repeats a stored id passes the pair check; saving one of the two rows then rewrites both, so two offerings share a pair |
| CourseOfferings.CourseName | src/components/CourseOfferings/CourseOfferings.tsx:109-110 | the name of the first course with the id; "Unknown Course" when there is none or its name is empty |
| CourseOfferings.CourseTypeName | src/components/CourseOfferings/CourseOfferings.tsx:111-112 | the name of the first course type with the id; "Unknown Type" when there is none or its name is empty |
| CourseOfferings.RegistrationCount | src/components/CourseOfferings/CourseOfferings.tsx:113-114 | the number of registrations for the offering is at most the number of registrations, and is zero iff no registration names the offering |
| CourseOfferings.RegistrationCountBlocksDelete | src/components/CourseOfferings/CourseOfferings.tsx:113-114 | the registration count is positive exactly when the store would refuse to delete the offering |
| CourseOfferings.RegistrationCountAfterAdd | src/components/CourseOfferings/CourseOfferings.tsx:113-114 | adding a registration raises its offering's count by one and no other offering's count |
| CourseOfferings.AddDisabled | src/components/CourseOfferings/CourseOfferings.tsx:130-132 | the add button is disabled iff no course and course type can be chosen together |
| CourseOfferings.DefaultForm | src/components/CourseOfferings/CourseOfferings.tsx:19-27 | the dialog starts on the first stored course and course type (a stored row that is also the first with its id), or on the empty string when there is none |
| CourseOfferings.AddDisabledMatchesDefaultForm | src/components/CourseOfferings/CourseOfferings.tsx:19-132 | when the add button is disabled (no courses or no course types) the dialog's starting form fails the check; when enabled it names a stored course and course type |
| CourseOfferings.HandleDelete | src/components/CourseOfferings/CourseOfferings.tsx:101-107 | without confirmation nothing happens; with confirmation DELETE_COURSE_OFFERING is dispatched: it is refused, leaving the snapshot unchanged, iff the registration count is positive, and otherwise removes exactly the offerings with that id; no other collection changes |
| StudentRegistrations.FilteredOfferings | src/components/StudentRegistrations/StudentRegistrations.tsx:21-23 | with "all", every offering; otherwise exactly the offerings of the chosen course type, each as often as it is stored |
| StudentRegistrations.FilteredOfferingsKeepOrder | src/components/StudentRegistrations/StudentRegistrations.tsx:21-23 | the filtered offerings are the stored offerings with some left out and the rest in their stored order (a subsequence) |
| StudentRegistrations.DefaultOfferingId | src/components/StudentRegistrations/StudentRegistrations.tsx:30 | the empty string when the filter leaves no offering; otherwise the id of the first stored offering that passes the filter |
| StudentRegistrations.IsEmail | src/components/StudentRegistrations/StudentRegistrations.tsx:61-62 | an accepted address has at least five characters, is not blank, and holds exactly one '@' |
| StudentRegistrations.EmailCheckMatchesPattern | src/components/StudentRegistrations/StudentRegistrations.tsx:61-62 | the pattern `^[^\s@]+@[^\s@]+\.[^\s@]+$` accepts exactly the strings with a single '@', a non-empty white-space-free part before it, and after it a white-space-free domain with a '.' that has a character on each side |
| StudentRegistrations.EmailExamples | src/components/StudentRegistrations/StudentRegistrations.tsx:61-62 | "jane@example.com" matches; "jane@example" and "jane.com" do not |
| StudentRegistrations.EmailPatternIsNotBlank | src/components/StudentRegistrations/StudentRegistrations.tsx:55-65 | an address that matches the pattern is never blank |
| StudentRegistrations.ValidateForm | src/components/StudentRegistrations/StudentRegistrations.tsx:49-79 | each message is reported iff every earlier check passes and its own fails, in the order name, e-mail present, e-mail pattern, phone, offering; pass iff all pass |
| StudentRegistrations.HandleSubmit | src/components/StudentRegistrations/StudentRegistrations.tsx:81-110 | a failed check dispatches nothing and shows its message; a pass dispatches exactly ADD_STUDENT with an "s" id and then ADD_REGISTRATION with an "r" id, naming that student and the selected offering and dated today; the new snapshot is the old one with the two rows appended |
| AppContext.ApplyAll | src/components/StudentRegistrations/StudentRegistrations.tsx:88-107 | dispatching no action leaves the snapshot as it is; dispatching one action is that action's reducer step |
| AppContext.ApplyAllAppend | src/components/StudentRegistrations/StudentRegistrations.tsx:88-107 | dispatching two lists one after the other is dispatching their concatenation |
| StudentRegistrations.StudentThenRegistration | src/components/StudentRegistrations/StudentRegistrations.tsx:88-107 | the two dispatches append one student and one registration and change nothing else |
| StudentRegistrations.StudentThenRegistrationPreservesConsistency | src/components/StudentRegistrations/StudentRegistrations.tsx:86-107 | the pair keeps every store invariant when the registration names the new student and a stored offering |
| StudentRegistrations.HandleDeleteRegistration | src/components/StudentRegistrations/StudentRegistrations.tsx:112-116 | never refused; without confirmation nothing changes; with confirmation DELETE_REGISTRATION is dispatched and exactly the registrations with that id go; no other collection changes |
| StudentRegistrations.StudentsForOffering | src/components/StudentRegistrations/StudentRegistrations.tsx:139-153 | one row per registration for the offering, in registration order; a row's student is absent iff no student has its id, and otherwise is the first stored student with that id |
| StudentRegistrations.StudentsForOfferingCovers | src/components/StudentRegistrations/StudentRegistrations.tsx:144-153 | every row's registration is a stored registration for the offering, and every such registration has a row |
| StudentRegistrations.CourseName | src/components/StudentRegistrations/StudentRegistrations.tsx:119-122 | the name of the first course with the id (even when empty), or "Unknown Course" |
| StudentRegistrations.CourseTypeName | src/components/StudentRegistrations/StudentRegistrations.tsx:125-128 | the name of the first course type with the id (even when empty), or "Unknown Type" |
| StudentRegistrations.OfferingDisplayName | src/components/StudentRegistrations/StudentRegistrations.tsx:131-136 | "Unknown Offering" for an absent offering; otherwise the type name, " - ", then the course name of the first offering with the id |
| StudentRegistrations.DisplayNameUsesStoredNames | src/components/StudentRegistrations/StudentRegistrations.tsx:131-136 | with referential integrity, a stored offering is shown with the names of its own course type and course: the stored rows whose ids the first offering with that id names, never a fallback |
| Text.TrimEmptyIffBlank | src/components/CourseTypes/CourseTypes.tsx:32 | `trim` leaves the empty string exactly when every character is white space |
| Text.DecimalValue | src/components/CourseTypes/CourseTypes.tsx:75 | the decimal rendering of a clock reading used in new ids reads back as that number |
| Seqs.FilterEmbeds | src/context/AppContext.tsx:107 | `filter`'s result is its input with some elements left out: it returns the strictly increasing positions the kept elements come from |
| Seqs.CountPositiveIffAny | src/context/AppContext.tsx:100 | `filter(p).length > 0` exactly when `some(p)` |

## Left out

- React machinery is not modelled: the context, `useReducer`, `useState` setters, the provider, the hook and its throw. The store is a value passed to the reducer.
- Markup, dialogs, animation, icons and styling are not modelled. Whether a dialog is open is not modelled either.
- `window.confirm` becomes a boolean input (`confirmed`). `alert` becomes the `alert` field of the reducer's result, holding the notice text.
- `Date.now()` becomes a natural-number parameter (`stamp`), and ids are the prefix followed by its decimal rendering. Two `Date.now()` calls in the registration submit are two parameters, which may be equal.
- `new Date().toISOString().split('T')[0]` becomes the `today` parameter. `toLocaleDateString` is display only.
- Text.ToLower: does not model full Unicode `toLowerCase`, because only ASCII A–Z are folded; other characters are left as they are.
- Strings are sequences of Unicode scalar values. UTF-16 code units and lone surrogates are not modelled. This does not change `trim` or the regular-expression class `\s`, which use the ECMAScript WhiteSpace and LineTerminator code points: all of them lie in the Basic Multilingual Plane.
- The "Unknown student" placeholder in the markup of the students-per-offering list (src/components/StudentRegistrations/StudentRegistrations.tsx:354) is the `student.None?` case of `StudentsForOffering`; the text itself is presentation and is not modelled.
- The registration form does not check that the selected offering still exists. The model keeps that: `StudentThenRegistrationPreservesConsistency` needs it as a precondition, which the form's selection list normally ensures.
- The store does not check id uniqueness on add, and `Date.now()` can repeat. Adds with fresh ids are a precondition of the `SubmitPreservesConsistency` lemmas, not a guarantee of the source. Name and pair uniqueness, like the rest of the invariant, are kept only while ids are unique: `SubmitKeepsNamesUnique` and `SubmitKeepsPairsUnique` take one step from a store with unique ids, whatever id that step's add gets. After an id collision, an edit of either row rewrites both, and two rows share the new name or pair (`ClockCollisionThenEditDuplicatesNames`, `ClockCollisionThenEditDuplicatesPairs`).
