/** The data model of the student-information backend (sis/models.py):
    the choice enums, the value records, the derived resit flag of a grade,
    the Grade record that is updated in place, and the uniqueness
    constraints of the grade and enrollment tables. */
module Models {
  import opened Wrappers

  type UserId = nat
  type CourseId = nat
  type ExamId = nat
  type GradeId = nat

  /** UserProfile.role */
  datatype Role = Student | Instructor | Secretary

  /** Grade.letter_grade; DZ is failure by absenteeism. */
  datatype LetterGrade = AA | BA | BB | CB | CC | DC | DD | FD | FF | DZ

  /** Grade.resit_request_status. `Unrequested` is the stored value 'None'. */
  datatype ResitStatus = Unrequested | Requested | Approved | Denied

  datatype ExamType = Midterm | Final | Resit | Research | Quiz

  datatype ExamStatus = Scheduled | NotGraded | Graded | Cancelled

  /** The display label of a resit status, as stored and as reported. */
  function StatusLabel(s: ResitStatus): (name: string)
    ensures name == "None" <==> s == Unrequested
    ensures name == "Requested" <==> s == Requested
  {
    match s
    case Unrequested => "None"
    case Requested => "Requested"
    case Approved => "Approved"
    case Denied => "Denied"
  }

  /** First and last name of a user, as the course search sees them. */
  datatype Person = Person(firstName: string, lastName: string)

  /** A course row; code and instructor are nullable. */
  datatype Course = Course(id: CourseId, code: Option<string>, title: string, instructor: Option<UserId>)

  /** An exam row; `datetime` is a nullable timestamp. */
  datatype Exam = Exam(
    id: ExamId,
    course: CourseId,
    kind: ExamType,
    name: Option<string>,
    datetime: Option<nat>,
    status: ExamStatus)

  /** A freshly created exam: every column as given, status defaulted. */
  function NewExam(id: ExamId, course: CourseId, kind: ExamType, name: Option<string>, datetime: Option<nat>): (e: Exam)
    ensures e.status == Scheduled
    ensures e.id == id && e.course == course && e.kind == kind && e.name == name && e.datetime == datetime
  {
    Exam(id, course, kind, name, datetime, Scheduled)
  }

  /** The letter grades listed as resit-eligible. */
  const ResitGrades: set<LetterGrade> := {FF, FD, DD, DC}

  /** The derivation rule of Grade.save: eligible for a resit exactly for the
      four failing grades; the explicit DZ test of the source is redundant. */
  function DeriveEligible(letter: LetterGrade): (eligible: bool)
    ensures eligible <==> letter == FF || letter == FD || letter == DD || letter == DC
    ensures letter == DZ ==> !eligible
  {
    letter in ResitGrades && letter != DZ
  }

  /** The part of a grade the resit workflow reads and writes. */
  datatype ResitState = ResitState(letter: LetterGrade, eligible: bool, status: ResitStatus)

  /** The resit state after Grade.save: the flag is recomputed from the letter
      and whatever it held before is discarded. */
  function Saved(s: ResitState): (t: ResitState)
    ensures t.letter == s.letter && t.status == s.status
    ensures t.eligible <==> s.letter in ResitGrades
  {
    s.(eligible := DeriveEligible(s.letter))
  }

  /** Saving twice is saving once, and the flag held before a save has no
      influence on the flag after it. */
  lemma SavedIdempotent(s: ResitState, forged: bool)
    ensures Saved(Saved(s)) == Saved(s)
    ensures Saved(s.(eligible := forged)) == Saved(s)
  {
  }

  /** A grade record. Student, exam and primary key never change once the
      row exists; the letter, the derived flag and the request status do. */
  class Grade {
    const id: GradeId
    const student: UserId
    const exam: ExamId
    var letter: LetterGrade
    var eligible: bool
    var status: ResitStatus

    /** A new, not yet saved grade: the flag has its column default (false)
        and the request status is 'None'. */
    constructor (id: GradeId, student: UserId, exam: ExamId, letter: LetterGrade)
      ensures this.id == id && this.student == student && this.exam == exam
      ensures this.letter == letter && !eligible && status == Unrequested
    {
      this.id := id;
      this.student := student;
      this.exam := exam;
      this.letter := letter;
      this.eligible := false;
      this.status := Unrequested;
    }

    function State(): ResitState
      reads this
    {
      ResitState(letter, eligible, status)
    }

    /** The stored flag agrees with the derivation rule. */
    ghost predicate Derived()
      reads this
    {
      eligible == DeriveEligible(letter)
    }

    /** Grade.save: recompute the flag from the letter, then persist. Only
        the flag is written. */
    method Save()
      modifies this`eligible
      ensures State() == Saved(old(State()))
      ensures Derived()
      ensures eligible <==> letter in ResitGrades
    {
      if letter in ResitGrades && letter != DZ {
        eligible := true;
      } else {
        eligible := false;
      }
    }
  }

  /** Every grade in `rows` carries the flag its letter derives. */
  ghost predicate AllDerived(rows: seq<Grade>)
    reads rows
  {
    forall i :: 0 <= i < |rows| ==> rows[i].Derived()
  }

  /** The grade table. Primary keys are allocated by the table (an
      auto-increment column) and (student, exam) is unique. */
  class GradeTable {
    var rows: seq<Grade>
    var nextId: GradeId

    ghost predicate Valid()
      reads this
    {
      && (forall i :: 0 <= i < |rows| ==> rows[i].id < nextId)
      && (forall i, j :: 0 <= i < j < |rows| ==> rows[i].id != rows[j].id)
      && (forall i, j :: 0 <= i < j < |rows| ==> rows[i].student != rows[j].student || rows[i].exam != rows[j].exam)
    }

    /** Some stored grade belongs to this (student, exam) pair. */
    predicate HasPair(student: UserId, exam: ExamId)
      reads this
    {
      exists i :: 0 <= i < |rows| && rows[i].student == student && rows[i].exam == exam
    }

    constructor ()
      ensures Valid() && rows == []
    {
      rows := [];
      nextId := 0;
    }

    /** Grade.objects.create: build the grade, save it (which derives the
        flag) and insert it; a second grade for the same (student, exam)
        pair is rejected by the unique constraint and nothing is stored. */
    method Create(student: UserId, exam: ExamId, letter: LetterGrade) returns (r: Option<Grade>)
      requires Valid()
      modifies this
      ensures Valid()
      ensures r.None? <==> old(HasPair(student, exam))
      ensures r.None? ==> rows == old(rows)
      ensures r.Some? ==> fresh(r.value) && rows == old(rows) + [r.value]
      ensures r.Some? ==> r.value.student == student && r.value.exam == exam && r.value.letter == letter
      ensures r.Some? ==> r.value.status == Unrequested && r.value.Derived()
      ensures old(AllDerived(rows)) ==> AllDerived(rows)
    {
      var g := new Grade(nextId, student, exam, letter);
      g.Save();
      if HasPair(student, exam) {
        return None;
      }
      rows := rows + [g];
      nextId := nextId + 1;
      r := Some(g);
    }
  }

  /** Inserting an enrollment into the table of (student, course) pairs: a
      pair already present is rejected by the unique constraint. */
  function Enroll(enrollments: set<(UserId, CourseId)>, student: UserId, course: CourseId): (r: Option<set<(UserId, CourseId)>>)
    ensures r.None? <==> (student, course) in enrollments
    ensures r.Some? ==> (student, course) in r.value && enrollments <= r.value
    ensures r.Some? ==> |r.value| == |enrollments| + 1
  {
    if (student, course) in enrollments then None else Some(enrollments + {(student, course)})
  }
}
