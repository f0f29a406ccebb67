# Resit eligibility and access rules of a student-information backend, in Dafny

This project models the logic core of a small Django REST backend for a
student-information system (module `sis`). Students see their enrolled
courses, exams and grades, and may ask for a resit (make-up) exam on a
failing grade. What is modelled:

- **Grade eligibility** (`Models`): a grade's `is_resit_eligible` flag is
  recomputed from its letter grade on every save. It is true exactly for FF,
  FD, DD and DC. `Grade` is a class whose `Save` method rewrites that one
  field in place. `GradeTable` allocates primary keys and rejects a second
  grade for the same (student, exam) pair. `Enroll` rejects a second
  enrollment for the same (student, course) pair. The choice lists (role,
  letter grade, resit status, exam type and status) are datatypes, and a new
  exam defaults to `Scheduled`.
- **Permissions** (`Views`): `IsStudent` (authenticated, has a profile, role
  student) and `IsEnrolledStudent`. The second is a guard over the closed
  object kinds Course / Exam / Grade / other. Course and exam need an
  enrollment in the (exam's) course, a grade must be the caller's own, and
  anything else is denied.
- **Resit workflow** (`Views`): the read-only eligibility report, where DZ
  forces "not eligible". The request is modelled as a state machine
  `ResitStep` over (letter, flag, status), whose only transition is
  None → Requested. `RequestResit` is the imperative request view: it
  mutates the caller's own grade object and is proved to take exactly one
  `ResitStep`.
- **Queries** (`Queries`): the enrolled-course dashboard, the course search
  (case-insensitive substring on title, instructor first or last name, or
  code), a course's grades (empty when not enrolled, newest exam first), the
  exam calendar (newest first), and the course and exam detail views.

Tables are sequences in storage order, and the enrollment table is a set of
(student, course) pairs. Requests are a `Caller` plus arguments.
Responses are a `Response` datatype (`Ok`, `BadRequest`, `NotFound`,
`Forbidden`, `NotAuthenticated`) instead of HTTP status codes. `Ordering`
gives the meaning of a descending `order_by`, and `Text` the meaning of
`icontains`.

Modelling choices:

- The stored resit status 'None' is the constructor `Unrequested`, because
  `None` is taken by `Option`.
- A missing exam date sorts below every real date. So under descending order
  it comes last, which is the MySQL convention. The database does not promise
  an order among equal dates, and the model keeps storage order there. The
  contracts claim only sortedness and permutation.
- A missing search parameter and an empty one both list every course,
  because the source tests the term's truthiness. A course with no
  instructor or no code does not match on that column.
- The final `else` of the eligibility message ladder (sis/views.py:158-159)
  cannot be reached. Once the flag is true, the four-valued status always
  matches an earlier branch. The `match` in `EligibilityReport` is exhaustive
  without it.
- `RequestResit` sets the status and then calls `save`, so the flag is
  re-derived after a successful request. `ReportAgreesWithRequest` shows
  that, for a saved grade, the report offers a request exactly when one
  would succeed. A flag written around `save` (for example by a bulk update)
  could make a DZ grade report "not eligible" while a request still
  succeeds. The model represents that state; it is not reachable through
  `Save`.

## Model

| member | source | states |
|---|---|---|
| `Models.DeriveEligible` | sis/models.py:149-155 | the flag is true iff the letter is FF, FD, DD or DC; DZ is never eligible |
| `Models.Saved` | sis/models.py:149-161 | saving keeps letter and status and sets the flag to "letter is one of the four resit grades" |
| `Models.SavedIdempotent` | sis/models.py:149-155 | saving twice equals saving once, and any flag value set before a save is overwritten |
| `Models.Grade.constructor` | sis/models.py:130-140 | a new grade has status None and the flag at its default false |
| `Models.Grade.Save` | sis/models.py:149-161 | the new state is `Saved` of the old one; only `is_resit_eligible` is written |
| `Models.GradeTable.Create` | sis/models.py:142-144 | a second grade for an existing (student, exam) pair is rejected and nothing is stored; otherwise the saved grade is appended with status None and a derived flag; table keys stay unique |
| `Models.Enroll` | sis/models.py:85-87 | inserting an existing (student, course) pair is rejected; otherwise exactly one pair is added |
| `Models.NewExam` | sis/models.py:98-110 | a new exam has status Scheduled |
| `Views.IsStudent` | sis/views.py:16-19 | granted iff the caller is authenticated and has a profile whose role is student |
| `Views.IsEnrolledStudent` | sis/views.py:21-41 | a non-student is denied whatever the object; a course iff (caller, course) is enrolled; an exam iff (caller, exam's course) is enrolled; a grade iff the caller owns it; any other object is denied |
| `Views.ExamGuardIsCourseGuard` | sis/views.py:27-40 | an exam is accessible exactly when its course is |
| `Views.GradeGuardIgnoresEnrollment` | sis/views.py:32-34 | access to a grade does not depend on the enrollment table |
| `Views.EligibilityReport` | sis/views.py:143-167 | DZ reports not eligible with the absenteeism message whatever the flag; otherwise the stored flag is reported; status and letter are echoed; the "you can submit a request" message appears iff eligible and status None |
| `Views.FindOwnedGrade` | sis/views.py:140 | a grade is found only if it has the key and belongs to the caller; none is found only if no such grade exists |
| `Views.OtherStudentsGradeNotFound` | sis/views.py:176 | another student's grade is never found by the resit views |
| `Views.CheckResitEligibility` | sis/views.py:135-169 | non-students are refused; the caller's own grade gives `Ok` with its report, any other key gives NotFound; nothing is modified |
| `Views.ResitStep` | sis/views.py:179-188 | a request succeeds iff the flag is true and the status is None, and the status becomes Requested; with another status it fails reporting that status; with status None and no eligibility it fails as not eligible; failures leave the state unchanged |
| `Views.RequestsAfterStatusRejected` | sis/views.py:183-185 | once the status has left None, every later request fails and reports that status |
| `Views.AtMostOneSubmission` | sis/views.py:179-185 | among any number of sequential requests on a grade, exactly one succeeds if it was eligible with status None, otherwise none |
| `Views.ReportAgreesWithRequest` | sis/views.py:145-149 | for a saved grade, the report offers a request iff a request would succeed |
| `Views.RequestResponse` | sis/views.py:182-188 | success carries the new status; rejection carries the current status or the fixed not-eligible message |
| `Views.RequestResit` | sis/views.py:171-188 | non-students are refused and another student's grade is not found, with nothing changed; the caller's grade takes exactly one `ResitStep` in place and every other grade is unchanged; derived flags stay derived |
| `Queries.FindCourse` | sis/views.py:92 | the course found has the key; none is found only if no course has it |
| `Queries.FindExam` | sis/views.py:124-127 | the exam found has the key; none is found only if no exam has it |
| `Queries.GradeFor` | sis/serializers.py:139-151 | the grade found belongs to the exam and the student; none is found only if no such grade exists |
| `Queries.GradeForUnique` | sis/models.py:142-144 | with (student, exam) unique, the grade found for a stored grade's pair is that grade |
| `Queries.StudentGrade` | sis/serializers.py:139-151 | the letter shown beside an exam is the student's grade for it, or none when there is no grade |
| `Queries.DateKey` | sis/views.py:101 | a missing date sorts below every real date |
| `Queries.EnrolledCourses` | sis/views.py:51-56 | a course is listed iff it exists and the student is enrolled in it, each as many times as it is stored (no duplicates added) |
| `Queries.StudentDashboard` | sis/views.py:46-56 | non-students are refused; a student always gets `Ok` with exactly their enrolled courses, none repeated beyond the table |
| `Queries.MatchingCourses` | sis/views.py:66-72 | a course is kept iff the term is a case-insensitive substring of its title, its instructor's first or last name, or its code, with its table multiplicity |
| `Queries.SearchCourses` | sis/views.py:63-73 | with no or an empty term every course is returned; otherwise exactly the matching courses, each with its table multiplicity |
| `Queries.CourseSearch` | sis/views.py:58-73 | any authenticated caller may search; an anonymous one is refused |
| `Queries.SearchFindsInstructorLastName` | sis/views.py:69-70 | searching for an instructor's last name finds that instructor's courses whatever their titles and codes (an empty name lists every course) |
| `Queries.OwnCourseGrades` | sis/views.py:98-100 | exactly the student's grades whose exam belongs to the course, each with its table multiplicity |
| `Queries.StudentCourseGrades` | sis/views.py:83-101 | a missing course is NotFound; not enrolled gives `Ok` of an empty list; enrolled gives `Ok` of exactly the caller's grades in the course, sorted by exam date newest first, as a permutation of them |
| `Queries.EnrolledExams` | sis/views.py:111-113 | an exam is listed iff it is in a course the student is enrolled in, with its table multiplicity |
| `Queries.StudentExams` | sis/views.py:104-114 | non-students are refused; students get a permutation of their enrolled courses' exams sorted by date newest first |
| `Queries.CourseDetail` | sis/views.py:75-81 | anonymous is refused; a missing course is NotFound; the course is returned iff the caller is a student enrolled in it, otherwise Forbidden |
| `Queries.ExamDetail` | sis/views.py:122-133 | anonymous is refused; a missing exam is NotFound; the exam is returned iff the caller is a student enrolled in its course, otherwise Forbidden; the caller's own grade for the exam is attached when it exists |
| `Queries.CourseDetailEnrolledVersusNot` | sis/views.py:38-40 | an enrolled student gets the course detail and a student who is not enrolled is forbidden |
| `Ordering.SortDesc` | sis/views.py:101 | the result is in descending key order and is a permutation of the input |
| `Text.IContainsCaseInsensitive` | sis/views.py:68-71 | matching ignores the case of the search term |
| `Text.IContainsSelf` | sis/views.py:68-71 | every string contains itself ignoring case |

## Left out

- URL routing (sis/urls.py) and the field lists of sis/serializers.py: they are declarative. Only the "student's grade for this exam" lookup of the exam serializers is modelled, as `Queries.GradeFor`.
- HTTP status codes, `Response` bodies beyond the data the views compute, and `get_object_or_404`: these are represented by the `Response` datatype.
- Query execution (`select_related`, `prefetch_related`, `values_list`). Tables are sequences in storage order. Where the source gives no `order_by`, results keep storage order; the contracts state which rows appear and how often, and promise no order.
- Course detail content (description, grading details, nested announcements) and exam detail fields beyond the exam row: output shaping with no logic. The detail views return the course or exam value.
- Timestamps (`auto_now`, `created_at`, `updated_at`, `graded_at`), `numeric_grade` (a decimal), `enrollment_date`, profile details, and the `__str__` methods: storage and formatting with no invariant.
- The commented-out custom User model (sis/models.py:13-32) and the commented-out rule that keeps the flag once a request exists (sis/models.py:156-159): they are not live code.
- The database does not enforce Django `choices`. The model types every choice column as a datatype, so a row can only hold a listed value.
- Concurrency: two simultaneous requests on one grade may both read status None. Requests are modelled one after another.
- Case folding covers ASCII letters only. Unicode folding as the database performs it is not modelled.
- Authentication itself (sessions, credentials) is not modelled. The caller arrives as an already resolved `Caller`.
