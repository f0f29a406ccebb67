/** The student-facing API of the backend (sis/views.py): the permission
    classes, the resit eligibility report, the resit request, and the
    listing queries. Requests are modelled by their caller and arguments;
    responses by the Response datatype instead of HTTP status codes. */
module Views {
  import opened Wrappers
  import opened Models

  /** The user of a request: anonymous, or authenticated with a profile role
      when the user has a profile at all. */
  datatype Caller = Anonymous | Authenticated(id: UserId, role: Option<Role>)

  /** The outcome of a request. NotAuthenticated is the rejection of an
      anonymous caller by the authentication permission. */
  datatype Response<T> = Ok(body: T) | BadRequest(message: string) | NotFound | Forbidden | NotAuthenticated

  /** The rejection a view protected by [IsAuthenticated, IsStudent] gives a
      caller who is not a student. */
  function Refusal<T>(caller: Caller): (r: Response<T>)
    ensures caller.Anonymous? <==> r.NotAuthenticated?
    ensures caller.Authenticated? <==> r.Forbidden?
  {
    if caller.Anonymous? then NotAuthenticated else Forbidden
  }

  // ---------------------------------------------------------------------
  // Permission classes

  /** IsStudent: authenticated, with a profile, whose role is student. */
  function IsStudent(caller: Caller): (ok: bool)
    ensures ok <==> caller.Authenticated? && caller.role == Some(Student)
  {
    match caller
    case Anonymous => false
    case Authenticated(_, role) => role.Some? && role.value == Student
  }

  /** The kinds of object IsEnrolledStudent can be asked about. */
  datatype Obj = CourseObj(course: Course) | ExamObj(exam: Exam) | GradeObj(grade: Grade) | OtherObj

  /** IsEnrolledStudent.has_object_permission: a non-student is always
      denied; a course needs an enrollment, an exam is judged by its course,
      a grade needs to be the caller's own, anything else is denied. */
  function IsEnrolledStudent(caller: Caller, enrollments: set<(UserId, CourseId)>, obj: Obj): (ok: bool)
    ensures ok ==> IsStudent(caller)
    ensures IsStudent(caller) && obj.CourseObj? ==> (ok <==> (caller.id, obj.course.id) in enrollments)
    ensures IsStudent(caller) && obj.ExamObj? ==> (ok <==> (caller.id, obj.exam.course) in enrollments)
    ensures IsStudent(caller) && obj.GradeObj? ==> (ok <==> obj.grade.student == caller.id)
    ensures obj.OtherObj? ==> !ok
  {
    if !IsStudent(caller) then false
    else
      match obj
      case CourseObj(c) => (caller.id, c.id) in enrollments
      case ExamObj(e) => (caller.id, e.course) in enrollments
      case GradeObj(g) => g.student == caller.id
      case OtherObj => false
  }

  /** An exam is accessible exactly when its course is. */
  lemma ExamGuardIsCourseGuard(caller: Caller, enrollments: set<(UserId, CourseId)>, e: Exam, c: Course)
    requires e.course == c.id
    ensures IsEnrolledStudent(caller, enrollments, ExamObj(e)) == IsEnrolledStudent(caller, enrollments, CourseObj(c))
  {
  }

  /** Grade access does not depend on enrollments at all. */
  lemma GradeGuardIgnoresEnrollment(caller: Caller, e1: set<(UserId, CourseId)>, e2: set<(UserId, CourseId)>, g: Grade)
    ensures IsEnrolledStudent(caller, e1, GradeObj(g)) == IsEnrolledStudent(caller, e2, GradeObj(g))
  {
  }

  // ---------------------------------------------------------------------
  // Resit eligibility report (CheckResitEligibilityView)

  const AbsenteeismMessage := "Not eligible for resit exam due to absenteeism (DZ)."
  const CanRequestMessage := "Eligible for resit exam. You can submit a request."
  const AlreadyRequestedMessage := "You have already requested a resit exam."
  const ApprovedMessage := "Your resit exam request has been approved."
  const DeniedMessage := "Your resit exam request has been denied."
  const NotEligibleMessage := "Not eligible for resit exam for this grade."

  datatype Report = Report(eligible: bool, message: string, status: ResitStatus, letter: LetterGrade)

  /** The eligibility report of a grade. DZ forces "not eligible" whatever
      the stored flag says; otherwise the stored flag is reported, and the
      stored status and letter are echoed. */
  function EligibilityReport(s: ResitState): (r: Report)
    ensures r.status == s.status && r.letter == s.letter
    ensures s.letter == DZ ==> !r.eligible && r.message == AbsenteeismMessage
    ensures s.letter != DZ ==> r.eligible == s.eligible
    ensures s.letter != DZ && !s.eligible ==> r.message == NotEligibleMessage
    ensures r.message == CanRequestMessage <==> r.eligible && s.status == Unrequested
    ensures r.eligible && s.status == Requested ==> r.message == AlreadyRequestedMessage
    ensures r.eligible && s.status == Approved ==> r.message == ApprovedMessage
    ensures r.eligible && s.status == Denied ==> r.message == DeniedMessage
  {
    var eligible := s.eligible;
    if s.letter == DZ then Report(false, AbsenteeismMessage, s.status, s.letter)
    else if !eligible then Report(false, NotEligibleMessage, s.status, s.letter)
    else
      var message :=
        match s.status
        case Unrequested => CanRequestMessage
        case Requested => AlreadyRequestedMessage
        case Approved => ApprovedMessage
        case Denied => DeniedMessage;
      Report(true, message, s.status, s.letter)
  }

  /** The grade with primary key `pk` that belongs to `student`, if any: the
      lookup of both resit views. */
  function FindOwnedGrade(rows: seq<Grade>, pk: GradeId, student: UserId): (r: Option<Grade>)
    ensures r.Some? ==> r.value in rows && r.value.id == pk && r.value.student == student
    ensures r.None? ==> forall g :: g in rows ==> g.id != pk || g.student != student
  {
    if rows == [] then None
    else if rows[0].id == pk && rows[0].student == student then Some(rows[0])
    else FindOwnedGrade(rows[1..], pk, student)
  }

  /** Another student's grade is never found: it reads as missing. */
  lemma OtherStudentsGradeNotFound(table: GradeTable, g: Grade, caller: UserId)
    requires table.Valid() && g in table.rows && g.student != caller
    ensures FindOwnedGrade(table.rows, g.id, caller).None?
  {
  }

  /** CheckResitEligibilityView.get: read-only. */
  function CheckResitEligibility(caller: Caller, rows: seq<Grade>, pk: GradeId): (r: Response<Report>)
    reads rows
    ensures !IsStudent(caller) ==> r == Refusal(caller)
    ensures IsStudent(caller) ==> (r.NotFound? <==> FindOwnedGrade(rows, pk, caller.id).None?)
    ensures r.Ok? ==>
      && IsStudent(caller)
      && exists g :: g in rows && g.id == pk && g.student == caller.id && r.body == EligibilityReport(g.State())
    ensures IsStudent(caller) && FindOwnedGrade(rows, pk, caller.id).Some? ==>
      r == Ok(EligibilityReport(FindOwnedGrade(rows, pk, caller.id).value.State()))
    ensures r.Ok? || r.NotFound? || r == Refusal(caller)
  {
    if !IsStudent(caller) then Refusal(caller)
    else
      match FindOwnedGrade(rows, pk, caller.id)
      case None => NotFound
      case Some(g) => Ok(EligibilityReport(g.State()))
  }

  // ---------------------------------------------------------------------
  // Resit request (RequestResitExamView)

  datatype RequestResult = Submitted(newStatus: ResitStatus) | AlreadyHasStatus(current: ResitStatus) | NotEligible

  /** One resit request against a grade in state `s`: the new state and the
      result. Only None -> Requested is performed, and only for an eligible
      grade; the grade is saved after the change, which re-derives the flag. */
  function ResitStep(s: ResitState): (out: (ResitState, RequestResult))
    ensures out.1.Submitted? <==> s.eligible && s.status == Unrequested
    ensures out.1.Submitted? ==> out.1.newStatus == Requested && out.0 == Saved(s.(status := Requested))
    ensures out.1.AlreadyHasStatus? <==> s.status != Unrequested
    ensures out.1.AlreadyHasStatus? ==> out.1.current == s.status
    ensures out.1.NotEligible? <==> !s.eligible && s.status == Unrequested
    ensures !out.1.Submitted? ==> out.0 == s
  {
    if s.eligible && s.status == Unrequested then
      var t := Saved(s.(status := Requested));
      (t, Submitted(t.status))
    else if s.status != Unrequested then (s, AlreadyHasStatus(s.status))
    else (s, NotEligible)
  }

  /** The results of `n` requests made one after another on one grade. */
  function RequestRun(s: ResitState, n: nat): (results: seq<RequestResult>)
    ensures |results| == n
    decreases n
  {
    if n == 0 then [] else [ResitStep(s).1] + RequestRun(ResitStep(s).0, n - 1)
  }

  function Submissions(results: seq<RequestResult>): nat
  {
    if results == [] then 0 else (if results[0].Submitted? then 1 else 0) + Submissions(results[1..])
  }

  /** Once the status has left None, every further request is rejected and
      reports that same status. */
  lemma {:induction false} RequestsAfterStatusRejected(s: ResitState, n: nat)
    requires s.status != Unrequested
    ensures Submissions(RequestRun(s, n)) == 0
    ensures forall i :: 0 <= i < n ==> RequestRun(s, n)[i] == AlreadyHasStatus(s.status)
  {
    if n > 0 {
      RequestsAfterStatusRejected(s, n - 1);
      assert RequestRun(s, n)[1..] == RequestRun(s, n - 1);
    }
  }

  /** However many requests are made in sequence, at most one succeeds, and
      one does exactly when the grade is eligible and has status None. */
  lemma {:induction false} AtMostOneSubmission(s: ResitState, n: nat)
    ensures Submissions(RequestRun(s, n)) == if n > 0 && s.eligible && s.status == Unrequested then 1 else 0
  {
    if n > 0 {
      var (t, res) := ResitStep(s);
      assert RequestRun(s, n)[1..] == RequestRun(t, n - 1);
      if res.Submitted? {
        RequestsAfterStatusRejected(t, n - 1);
      } else {
        AtMostOneSubmission(s, n - 1);
      }
    }
  }

  /** For a grade whose flag was derived by save, the report says a request
      may be submitted exactly when a request would succeed. */
  lemma ReportAgreesWithRequest(s: ResitState)
    requires s.eligible == DeriveEligible(s.letter)
    ensures EligibilityReport(s).message == CanRequestMessage <==> ResitStep(s).1.Submitted?
  {
  }

  const SubmittedMessage := "Resit exam request submitted successfully."
  const CannotRequestPrefix := "Cannot request resit. Current status: "
  const NotEligibleToRequestMessage := "Not eligible to request a resit exam for this grade."

  /** The response for a request result: the new status on success, the
      current status or the fixed not-eligible message on rejection. */
  function RequestResponse(res: RequestResult): (r: Response<(string, ResitStatus)>)
    ensures r.Ok? <==> res.Submitted?
    ensures r.Ok? ==> r.body == (SubmittedMessage, res.newStatus)
    ensures res.AlreadyHasStatus? ==> r == BadRequest(CannotRequestPrefix + StatusLabel(res.current))
    ensures res.NotEligible? ==> r == BadRequest(NotEligibleToRequestMessage)
  {
    match res
    case Submitted(status) => Ok((SubmittedMessage, status))
    case AlreadyHasStatus(status) => BadRequest(CannotRequestPrefix + StatusLabel(status))
    case NotEligible => BadRequest(NotEligibleToRequestMessage)
  }

  /** RequestResitExamView.post: the caller's own grade takes one ResitStep
      in place; no other grade changes. */
  method RequestResit(caller: Caller, table: GradeTable, pk: GradeId) returns (r: Response<(string, ResitStatus)>)
    modifies table.rows
    ensures !IsStudent(caller) ==> r == Refusal(caller) && unchanged(table.rows)
    ensures IsStudent(caller) && FindOwnedGrade(table.rows, pk, caller.id).None? ==> r == NotFound && unchanged(table.rows)
    ensures IsStudent(caller) && FindOwnedGrade(table.rows, pk, caller.id).Some? ==>
      var g := FindOwnedGrade(table.rows, pk, caller.id).value;
      && g.State() == ResitStep(old(g.State())).0
      && r == RequestResponse(ResitStep(old(g.State())).1)
      && forall h :: h in table.rows && h != g ==> unchanged(h)
    ensures old(AllDerived(table.rows)) ==> AllDerived(table.rows)
  {
    if !IsStudent(caller) {
      return Refusal(caller);
    }
    var found := FindOwnedGrade(table.rows, pk, caller.id);
    if found.None? {
      return NotFound;
    }
    var grade := found.value;
    if grade.eligible && grade.status == Unrequested {
      grade.status := Requested;
      grade.Save();
      r := Ok((SubmittedMessage, grade.status));
    } else if grade.status != Unrequested {
      r := BadRequest(CannotRequestPrefix + StatusLabel(grade.status));
    } else {
      r := BadRequest(NotEligibleToRequestMessage);
    }
  }
}
