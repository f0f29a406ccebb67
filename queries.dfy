/** The listing and detail views of sis/views.py: the enrolled-course
    dashboard, the course search, a course's grades, the exam calendar, and
    the course and exam detail views guarded by IsEnrolledStudent. Tables
    are sequences in storage order; enrollments are a set of pairs. */
module Queries {
  import opened Wrappers
  import opened Models
  import opened Ordering
  import opened Text
  import opened Views

  // ---------------------------------------------------------------------
  // Table lookups

  function FindCourse(courses: seq<Course>, pk: CourseId): (r: Option<Course>)
    ensures r.Some? ==> r.value in courses && r.value.id == pk
    ensures r.None? ==> forall c :: c in courses ==> c.id != pk
  {
    if courses == [] then None
    else if courses[0].id == pk then Some(courses[0])
    else FindCourse(courses[1..], pk)
  }

  function FindExam(exams: seq<Exam>, pk: ExamId): (r: Option<Exam>)
    ensures r.Some? ==> r.value in exams && r.value.id == pk
    ensures r.None? ==> forall e :: e in exams ==> e.id != pk
  {
    if exams == [] then None
    else if exams[0].id == pk then Some(exams[0])
    else FindExam(exams[1..], pk)
  }

  /** The grade of `student` for exam `exam`, if one exists: the lookup the
      exam serializers use to attach the student's own grade. */
  function GradeFor(rows: seq<Grade>, exam: ExamId, student: UserId): (r: Option<Grade>)
    ensures r.Some? ==> r.value in rows && r.value.exam == exam && r.value.student == student
    ensures r.None? ==> forall g :: g in rows ==> g.exam != exam || g.student != student
  {
    if rows == [] then None
    else if rows[0].exam == exam && rows[0].student == student then Some(rows[0])
    else GradeFor(rows[1..], exam, student)
  }

  /** With (student, exam) unique, the grade found is the only one there is. */
  lemma GradeForUnique(table: GradeTable, g: Grade)
    requires table.Valid() && g in table.rows
    ensures GradeFor(table.rows, g.exam, g.student) == Some(g)
  {
  }

  /** The letter grade shown next to an exam in the student's calendar. */
  function StudentGrade(rows: seq<Grade>, exam: ExamId, student: UserId): (r: Option<LetterGrade>)
    reads rows
    ensures r.Some? <==> GradeFor(rows, exam, student).Some?
    ensures r.Some? ==> r.value == GradeFor(rows, exam, student).value.letter
  {
    match GradeFor(rows, exam, student)
    case None => None
    case Some(g) => Some(g.letter)
  }

  // ---------------------------------------------------------------------
  // Ordering by exam date, newest first

  /** The sort key of a nullable timestamp: a missing date sorts below every
      real one, so it comes last in descending order. */
  function DateKey(datetime: Option<nat>): (k: int)
    ensures datetime.None? ==> k < 0
    ensures datetime.Some? ==> k == datetime.value
  {
    if datetime.None? then -1 else datetime.value
  }

  function ExamDate(e: Exam): int
  {
    DateKey(e.datetime)
  }

  /** The date key of a grade is the date of its exam. */
  function GradeDate(exams: seq<Exam>): Grade -> int
  {
    (g: Grade) => match FindExam(exams, g.exam) case Some(e) => ExamDate(e) case None => -1
  }

  // ---------------------------------------------------------------------
  // StudentDashboardView

  function EnrolledCourses(courses: seq<Course>, enrollments: set<(UserId, CourseId)>, student: UserId): (r: seq<Course>)
    ensures forall c :: c in r <==> c in courses && (student, c.id) in enrollments
    ensures forall c :: multiset(r)[c] == if (student, c.id) in enrollments then multiset(courses)[c] else 0
    ensures |r| <= |courses|
  {
    if courses == [] then []
    else
      var rest := EnrolledCourses(courses[1..], enrollments, student);
      assert courses == [courses[0]] + courses[1..];
      if (student, courses[0].id) in enrollments then [courses[0]] + rest else rest
  }

  /** The courses the calling student is enrolled in. */
  function StudentDashboard(caller: Caller, courses: seq<Course>, enrollments: set<(UserId, CourseId)>): (r: Response<seq<Course>>)
    ensures !IsStudent(caller) ==> r == Refusal(caller)
    ensures IsStudent(caller) ==> r == Ok(EnrolledCourses(courses, enrollments, caller.id))
    ensures r.Ok? ==> forall c :: c in r.body <==> c in courses && (caller.id, c.id) in enrollments
    ensures r.Ok? ==> forall c :: multiset(r.body)[c] == if (caller.id, c.id) in enrollments then multiset(courses)[c] else 0
  {
    if !IsStudent(caller) then Refusal(caller) else Ok(EnrolledCourses(courses, enrollments, caller.id))
  }

  // ---------------------------------------------------------------------
  // CourseSearchView

  /** The search disjunction: title, instructor first or last name, or code,
      each a case-insensitive substring test. A missing instructor or code
      matches nothing. */
  predicate CourseMatches(c: Course, users: map<UserId, Person>, term: string)
  {
    || IContains(c.title, term)
    || (c.instructor.Some? && c.instructor.value in users && IContains(users[c.instructor.value].firstName, term))
    || (c.instructor.Some? && c.instructor.value in users && IContains(users[c.instructor.value].lastName, term))
    || (c.code.Some? && IContains(c.code.value, term))
  }

  function MatchingCourses(courses: seq<Course>, users: map<UserId, Person>, term: string): (r: seq<Course>)
    ensures forall c :: c in r <==> c in courses && CourseMatches(c, users, term)
    ensures forall c :: multiset(r)[c] == if CourseMatches(c, users, term) then multiset(courses)[c] else 0
    ensures |r| <= |courses|
  {
    if courses == [] then []
    else
      var rest := MatchingCourses(courses[1..], users, term);
      assert courses == [courses[0]] + courses[1..];
      if CourseMatches(courses[0], users, term) then [courses[0]] + rest else rest
  }

  /** No search term, or an empty one, lists every course; otherwise the
      courses matching the term. */
  function SearchCourses(courses: seq<Course>, users: map<UserId, Person>, search: Option<string>): (r: seq<Course>)
    ensures search.None? || search.value == [] ==> r == courses
    ensures search.Some? && search.value != [] ==> r == MatchingCourses(courses, users, search.value)
    ensures search.Some? && search.value != [] ==>
      forall c :: c in r <==> c in courses && CourseMatches(c, users, search.value)
    ensures search.Some? && search.value != [] ==>
      forall c :: multiset(r)[c] == if CourseMatches(c, users, search.value) then multiset(courses)[c] else 0
  {
    if search.Some? && search.value != [] then MatchingCourses(courses, users, search.value) else courses
  }

  /** CourseSearchView.get_queryset: open to any authenticated user. */
  function CourseSearch(caller: Caller, courses: seq<Course>, users: map<UserId, Person>, search: Option<string>): (r: Response<seq<Course>>)
    ensures caller.Anonymous? <==> r == NotAuthenticated
    ensures caller.Authenticated? ==> r == Ok(SearchCourses(courses, users, search))
  {
    if caller.Anonymous? then NotAuthenticated else Ok(SearchCourses(courses, users, search))
  }

  /** Searching for an instructor's last name finds the courses that
      instructor teaches, whatever their titles and codes. */
  lemma SearchFindsInstructorLastName(courses: seq<Course>, users: map<UserId, Person>, c: Course)
    requires c in courses && c.instructor.Some? && c.instructor.value in users
    ensures c in SearchCourses(courses, users, Some(users[c.instructor.value].lastName))
  {
    IContainsSelf(users[c.instructor.value].lastName);
  }

  // ---------------------------------------------------------------------
  // StudentCourseGradesView

  /** `g` is a grade of `student` for an exam of `course`. */
  predicate InCourse(exams: seq<Exam>, g: Grade, student: UserId, course: CourseId)
  {
    g.student == student && FindExam(exams, g.exam).Some? && FindExam(exams, g.exam).value.course == course
  }

  /** The caller's grades for exams of the given course. */
  function OwnCourseGrades(rows: seq<Grade>, exams: seq<Exam>, student: UserId, course: CourseId): (r: seq<Grade>)
    ensures forall g :: g in r ==> g in rows && InCourse(exams, g, student, course)
    ensures forall g :: g in rows && InCourse(exams, g, student, course) ==> g in r
    ensures multiset(r) <= multiset(rows)
    ensures forall g :: g in rows ==> multiset(r)[g] == if InCourse(exams, g, student, course) then multiset(rows)[g] else 0
    ensures |r| <= |rows|
  {
    if rows == [] then []
    else
      var rest := OwnCourseGrades(rows[1..], exams, student, course);
      var g := rows[0];
      assert rows == [g] + rows[1..];
      if InCourse(exams, g, student, course) then [g] + rest else rest
  }

  /** StudentCourseGradesView.get_queryset: a missing course is not found;
      a course the caller is not enrolled in gives an empty list; otherwise
      the caller's grades in that course, newest exam first. */
  function StudentCourseGrades(
    caller: Caller, courses: seq<Course>, enrollments: set<(UserId, CourseId)>,
    exams: seq<Exam>, rows: seq<Grade>, coursePk: CourseId): (r: Response<seq<Grade>>)
    ensures !IsStudent(caller) ==> r == Refusal(caller)
    ensures IsStudent(caller) ==> (r.NotFound? <==> FindCourse(courses, coursePk).None?)
    ensures IsStudent(caller) && FindCourse(courses, coursePk).Some? && (caller.id, coursePk) !in enrollments ==> r == Ok([])
    ensures IsStudent(caller) && FindCourse(courses, coursePk).Some? && (caller.id, coursePk) in enrollments ==>
      r == Ok(SortDesc(OwnCourseGrades(rows, exams, caller.id, coursePk), GradeDate(exams)))
    ensures r.Ok? ==> SortedDesc(r.body, GradeDate(exams))
    ensures r.Ok? && (caller.id, coursePk) in enrollments ==> multiset(r.body) == multiset(OwnCourseGrades(rows, exams, caller.id, coursePk))
    ensures r.Ok? ==> forall g :: g in r.body ==> (caller.id, coursePk) in enrollments && g in rows && InCourse(exams, g, caller.id, coursePk)
    ensures r.Ok? && (caller.id, coursePk) in enrollments ==> forall g :: g in rows && InCourse(exams, g, caller.id, coursePk) ==> g in r.body
  {
    if !IsStudent(caller) then Refusal(caller)
    else if FindCourse(courses, coursePk).None? then NotFound
    else if (caller.id, coursePk) !in enrollments then Ok([])
    else
      var own := OwnCourseGrades(rows, exams, caller.id, coursePk);
      var sorted := SortDesc(own, GradeDate(exams));
      assert forall g :: g in own ==> g in sorted by {
        forall g | g in own ensures g in sorted {
          SortDescMembers(own, GradeDate(exams), g);
        }
      }
      assert forall g :: g in sorted ==> g in own by {
        forall g | g in sorted ensures g in own {
          SortDescMembers(own, GradeDate(exams), g);
        }
      }
      Ok(sorted)
  }

  // ---------------------------------------------------------------------
  // StudentExamsView

  function EnrolledExams(exams: seq<Exam>, enrollments: set<(UserId, CourseId)>, student: UserId): (r: seq<Exam>)
    ensures forall e :: e in r <==> e in exams && (student, e.course) in enrollments
    ensures forall e :: multiset(r)[e] == if (student, e.course) in enrollments then multiset(exams)[e] else 0
    ensures |r| <= |exams|
  {
    if exams == [] then []
    else
      var rest := EnrolledExams(exams[1..], enrollments, student);
      assert exams == [exams[0]] + exams[1..];
      if (student, exams[0].course) in enrollments then [exams[0]] + rest else rest
  }

  /** StudentExamsView.get_queryset: the exams of every course the caller is
      enrolled in, newest first. */
  function StudentExams(caller: Caller, exams: seq<Exam>, enrollments: set<(UserId, CourseId)>): (r: Response<seq<Exam>>)
    ensures !IsStudent(caller) ==> r == Refusal(caller)
    ensures IsStudent(caller) ==> r.Ok?
    ensures r.Ok? ==> SortedDesc(r.body, ExamDate)
    ensures r.Ok? ==> multiset(r.body) == multiset(EnrolledExams(exams, enrollments, caller.id))
    ensures r.Ok? ==> forall e :: e in r.body <==> e in exams && (caller.id, e.course) in enrollments
  {
    if !IsStudent(caller) then Refusal(caller)
    else
      var mine := EnrolledExams(exams, enrollments, caller.id);
      var sorted := SortDesc(mine, ExamDate);
      assert forall e :: e in sorted <==> e in mine by {
        forall e ensures e in sorted <==> e in mine {
          SortDescMembers(mine, ExamDate, e);
        }
      }
      Ok(sorted)
  }

  // ---------------------------------------------------------------------
  // CourseDetailView and ExamDetailView

  /** CourseDetailView: authentication first, then the object lookup, then
      IsEnrolledStudent on the course found. */
  function CourseDetail(caller: Caller, courses: seq<Course>, enrollments: set<(UserId, CourseId)>, pk: CourseId): (r: Response<Course>)
    ensures caller.Anonymous? <==> r == NotAuthenticated
    ensures caller.Authenticated? ==> (r.NotFound? <==> FindCourse(courses, pk).None?)
    ensures r.Ok? <==> IsStudent(caller) && FindCourse(courses, pk).Some? && (caller.id, pk) in enrollments
    ensures r.Ok? ==> r.body in courses && r.body.id == pk
    ensures r.Ok? || r.NotFound? || r.NotAuthenticated? || r.Forbidden?
  {
    if caller.Anonymous? then NotAuthenticated
    else
      match FindCourse(courses, pk)
      case None => NotFound
      case Some(c) => if IsEnrolledStudent(caller, enrollments, CourseObj(c)) then Ok(c) else Forbidden
  }

  /** ExamDetailView: like CourseDetail, judged by the exam's course; the
      response carries the caller's own grade for the exam, if any. */
  function ExamDetail(caller: Caller, exams: seq<Exam>, enrollments: set<(UserId, CourseId)>, rows: seq<Grade>, pk: ExamId): (r: Response<(Exam, Option<Grade>)>)
    ensures caller.Anonymous? <==> r == NotAuthenticated
    ensures caller.Authenticated? ==> (r.NotFound? <==> FindExam(exams, pk).None?)
    ensures r.Ok? <==> IsStudent(caller) && FindExam(exams, pk).Some? && (caller.id, FindExam(exams, pk).value.course) in enrollments
    ensures r.Ok? ==> r.body.0 in exams && r.body.0.id == pk && r.body.1 == GradeFor(rows, pk, caller.id)
    ensures r.Ok? || r.NotFound? || r.NotAuthenticated? || r.Forbidden?
  {
    if caller.Anonymous? then NotAuthenticated
    else
      match FindExam(exams, pk)
      case None => NotFound
      case Some(e) => if IsEnrolledStudent(caller, enrollments, ExamObj(e)) then Ok((e, GradeFor(rows, e.id, caller.id))) else Forbidden
  }

  /** An enrolled student reads a course's detail; a student who is not
      enrolled is forbidden from it. */
  lemma CourseDetailEnrolledVersusNot(courses: seq<Course>, enrollments: set<(UserId, CourseId)>, c: Course, a: UserId, b: UserId)
    requires c in courses && (forall d :: d in courses && d.id == c.id ==> d == c)
    requires (a, c.id) in enrollments && (b, c.id) !in enrollments
    ensures CourseDetail(Authenticated(a, Some(Student)), courses, enrollments, c.id) == Ok(c)
    ensures CourseDetail(Authenticated(b, Some(Student)), courses, enrollments, c.id) == Forbidden
  {
  }
}
