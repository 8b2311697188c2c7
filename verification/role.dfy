/** The two user roles and the string form under which they are stored in the user table. */
module Roles {

  datatype Role = STUDENT | TEACHER

  /** The stored string of a role (the enum's `value` property). */
  function Value(r: Role): (s: string)
    ensures r == STUDENT ==> s == "STUDENT"
    ensures r == TEACHER ==> s == "TEACHER"
    ensures |s| == 7 && forall i :: 0 <= i < |s| ==> 'A' <= s[i] <= 'Z'
  {
    match r
    case STUDENT => "STUDENT"
    case TEACHER => "TEACHER"
  }

  /** Parses a stored role: the role whose stored string equals `s`, or STUDENT when none does.
      Total: every string maps to some role. */
  function From(s: string): (r: Role)
    ensures r == TEACHER <==> s == Value(TEACHER)
    ensures r == STUDENT <==> s != Value(TEACHER)
    ensures s == Value(STUDENT) ==> r == STUDENT
  {
    if s == Value(STUDENT) then STUDENT
    else if s == Value(TEACHER) then TEACHER
    else STUDENT
  }

  /** Storing a role and reading it back gives the same role. */
  lemma FromValue(r: Role)
    ensures From(Value(r)) == r
  {
  }

  /** Distinct roles are stored as distinct strings. */
  lemma ValueInjective(r1: Role, r2: Role)
    ensures Value(r1) == Value(r2) ==> r1 == r2
  {
  }

  /** Any string that is not exactly a stored role, such as "" or "teacher", falls back to STUDENT. */
  lemma UnknownIsStudent(s: string)
    requires s != Value(STUDENT) && s != Value(TEACHER)
    ensures From(s) == STUDENT
  {
  }

  /** The lower-case spelling is not recognised. */
  lemma LowerCaseTeacherIsStudent()
    ensures From("teacher") == STUDENT
  {
  }
}
