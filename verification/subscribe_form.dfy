/** The Save handler of the enrollment form. A teacher picks a student, a course and a score; a
    student enrolls themself in a course with score 0. Every failing check reports its own error
    in the same click, and a row is inserted only when all checks pass. */
module SubscribeForm {
  import opened Lookup
  import opened Entities
  import opened Roles
  import opened AuthViewModel

  const StudentMessage: string := "Please select a student"
  const CourseMessage: string := "Please select a course"
  const ScoreMessage: string := "Score must be between 0 and 20"

  /** The three error texts under the fields; "" shows no error. */
  datatype Errors = Errors(student: string, course: string, score: string)

  const NoErrors: Errors := Errors("", "", "")

  /** The form's state at the click. `currentStudent` is the logged-in student's profile once
      loaded; `score` is the score field already parsed as a number (None when it is not one). */
  datatype Form = Form(auth: AuthState, currentStudent: Option<Student>, selectedStudent: Option<Student>,
                       selectedCourse: Option<Course>, score: Option<real>, errors: Errors)

  predicate IsTeacher(a: AuthState) {
    a.LoggedIn? && a.role == TEACHER
  }

  predicate IsStudent(a: AuthState) {
    a.LoggedIn? && a.role == STUDENT
  }

  /** A student whose profile has not arrived yet sees a spinner instead of the form. */
  predicate LoadingStudent(f: Form) {
    IsStudent(f.auth) && f.currentStudent.None?
  }

  /** The Save button is enabled for a logged-in teacher, or a student whose profile is loaded. */
  predicate SaveEnabled(f: Form)
    ensures SaveEnabled(f) <==> IsTeacher(f.auth) || (IsStudent(f.auth) && f.currentStudent.Some?)
  {
    !LoadingStudent(f) && (IsTeacher(f.auth) || IsStudent(f.auth))
  }

  /** The checks of the Save handler. */
  datatype Check = MissingStudent | MissingCourse | BadScore

  /** The checks a form fails: an independent statement of the three rules. */
  function Failures(f: Form): (r: set<Check>)
    ensures MissingStudent in r <==> IsTeacher(f.auth) && f.selectedStudent.None?
    ensures MissingCourse in r <==> f.selectedCourse.None?
    ensures BadScore in r <==> IsTeacher(f.auth) && !(f.score.Some? && InScoreRange(f.score.value))
  {
    var teacher := IsTeacher(f.auth);
    (if teacher && f.selectedStudent.None? then {MissingStudent} else {})
    + (if f.selectedCourse.None? then {MissingCourse} else {})
    + (if teacher && !(f.score.Some? && InScoreRange(f.score.value)) then {BadScore} else {})
  }

  datatype SaveResult = SaveResult(errors: Errors, inserted: Option<Subscribe>)

  /** The Save click, written as the handler runs: each check in turn sets its error and clears
      `isValid`; a student's score is 0 without parsing. */
  function Save(f: Form): (r: SaveResult)
    requires SaveEnabled(f)
    ensures r.errors.student == if MissingStudent in Failures(f) then StudentMessage else f.errors.student
    ensures r.errors.course == if MissingCourse in Failures(f) then CourseMessage else f.errors.course
    ensures r.errors.score == if BadScore in Failures(f) then ScoreMessage else f.errors.score
    ensures r.inserted.Some? <==> Failures(f) == {}
    ensures r.inserted.Some? ==>
      && f.selectedCourse.Some?
      && r.inserted.value == Subscribe(0,
           if IsStudent(f.auth) then f.currentStudent.value.idStudent else f.selectedStudent.value.idStudent,
           f.selectedCourse.value.idCourse,
           if IsStudent(f.auth) then 0.0 else f.score.value)
  {
    var isTeacher := IsTeacher(f.auth);
    var studentError := if isTeacher && f.selectedStudent.None? then StudentMessage else f.errors.student;
    var courseError := if f.selectedCourse.None? then CourseMessage else f.errors.course;
    var scoreValue: Option<real> :=
      if isTeacher then
        match f.score
        case None => None
        case Some(x) => if x < 0.0 || x > 20.0 then None else Some(x)
      else Some(0.0);
    var scoreError := if scoreValue.None? then ScoreMessage else f.errors.score;
    var isValid := !(isTeacher && f.selectedStudent.None?) && f.selectedCourse.Some? && scoreValue.Some?;
    var errors := Errors(studentError, courseError, scoreError);
    if isValid then
      var studentId := if IsStudent(f.auth) then f.currentStudent.value.idStudent else f.selectedStudent.value.idStudent;
      SaveResult(errors, Some(Subscribe(0, studentId, f.selectedCourse.value.idCourse, scoreValue.value)))
    else SaveResult(errors, None)
  }

  // ----- Field edits: each clears its own error -----

  function SelectStudent(f: Form, s: Student): (r: Form)
    ensures r.selectedStudent == Some(s) && r.errors.student == ""
    ensures r.errors.course == f.errors.course && r.errors.score == f.errors.score
    ensures r.auth == f.auth && r.currentStudent == f.currentStudent
            && r.selectedCourse == f.selectedCourse && r.score == f.score
  {
    f.(selectedStudent := Some(s), errors := f.errors.(student := ""))
  }

  function SelectCourse(f: Form, c: Course): (r: Form)
    ensures r.selectedCourse == Some(c) && r.errors.course == ""
    ensures r.errors.student == f.errors.student && r.errors.score == f.errors.score
    ensures r.auth == f.auth && r.currentStudent == f.currentStudent
            && r.selectedStudent == f.selectedStudent && r.score == f.score
  {
    f.(selectedCourse := Some(c), errors := f.errors.(course := ""))
  }

  function EditScore(f: Form, parsed: Option<real>): (r: Form)
    ensures r.score == parsed && r.errors.score == ""
    ensures r.errors.student == f.errors.student && r.errors.course == f.errors.course
    ensures r.auth == f.auth && r.currentStudent == f.currentStudent
            && r.selectedStudent == f.selectedStudent && r.selectedCourse == f.selectedCourse
  {
    f.(score := parsed, errors := f.errors.(score := ""))
  }

  // ----- Properties -----

  /** Every enrollment the form inserts has a score in 0..20, for either role. */
  lemma InsertedScoreInRange(f: Form)
    requires SaveEnabled(f)
    ensures Save(f).inserted.Some? ==> InScoreRange(Save(f).inserted.value.score)
  {
  }

  /** A student never gets the student error, their score is 0, and they enroll themself. */
  lemma StudentEnrollsSelf(f: Form)
    requires SaveEnabled(f) && IsStudent(f.auth)
    ensures Save(f).errors.student == f.errors.student
    ensures Save(f).errors.score == f.errors.score
    ensures Save(f).inserted.Some? <==> f.selectedCourse.Some?
    ensures Save(f).inserted.Some? ==>
      Save(f).inserted.value.studentId == f.currentStudent.value.idStudent && Save(f).inserted.value.score == 0.0
  {
    assert !IsTeacher(f.auth);
  }

  /** A teacher who left everything empty sees all three errors at once: no check short-circuits. */
  lemma AllErrorsTogether(f: Form)
    requires SaveEnabled(f) && IsTeacher(f.auth)
    requires f.selectedStudent.None? && f.selectedCourse.None? && f.score.None?
    ensures Save(f) == SaveResult(Errors(StudentMessage, CourseMessage, ScoreMessage), None)
  {
  }

  /** A rejected save writes nothing and keeps each error text either as it was or set to its
      own check's message; no error text is ever cleared by Save. */
  lemma RejectedKeepsOrSets(f: Form)
    requires SaveEnabled(f)
    ensures Save(f).errors.student in {f.errors.student, StudentMessage}
    ensures Save(f).errors.course in {f.errors.course, CourseMessage}
    ensures Save(f).errors.score in {f.errors.score, ScoreMessage}
  {
  }

  /** A teacher who fixes every field after a click then saves: the form shows no errors and the
      row carries the chosen student, course and score. */
  lemma FixThenSave(f: Form, s: Student, c: Course, x: real)
    requires SaveEnabled(f) && IsTeacher(f.auth) && InScoreRange(x)
    ensures var g := EditScore(SelectCourse(SelectStudent(f.(errors := Save(f).errors), s), c), Some(x));
      && Save(g).errors == NoErrors
      && Save(g).inserted == Some(Subscribe(0, s.idStudent, c.idCourse, x))
  {
    var g := EditScore(SelectCourse(SelectStudent(f.(errors := Save(f).errors), s), c), Some(x));
    assert Failures(g) == {};
  }
}
