/** The Save handler of the course form: the name must not be blank and the credit value must be
    a positive number; a valid click builds a course from the trimmed name. */
module CourseForm {
  import opened Lookup
  import opened Entities

  const NameMessage: string := "Course name is required"
  const EctsMessage: string := "ECTS must be a positive number"

  /** Kotlin's `Char.isWhitespace`: the Java whitespace controls plus every Unicode space,
      line and paragraph separator (no-break spaces included). */
  predicate IsWhitespace(c: char) {
    || c == ' ' || '\t' <= c <= '\r' || '\U{1C}' <= c <= '\U{1F}'
    || c == '\U{A0}' || c == '\U{1680}' || '\U{2000}' <= c <= '\U{200A}'
    || c == '\U{2028}' || c == '\U{2029}' || c == '\U{202F}' || c == '\U{205F}' || c == '\U{3000}'
  }

  /** `isBlank`: empty or whitespace only. */
  predicate IsBlank(s: string) {
    forall i :: 0 <= i < |s| ==> IsWhitespace(s[i])
  }

  /** Number of leading whitespace characters. */
  function LeadingBlanks(s: string): (n: nat)
    ensures n <= |s|
    ensures forall i :: 0 <= i < n ==> IsWhitespace(s[i])
    ensures n < |s| ==> !IsWhitespace(s[n])
  {
    if |s| == 0 || !IsWhitespace(s[0]) then 0 else 1 + LeadingBlanks(s[1..])
  }

  /** Number of trailing whitespace characters. */
  function TrailingBlanks(s: string): (n: nat)
    ensures n <= |s|
    ensures forall i :: |s| - n <= i < |s| ==> IsWhitespace(s[i])
    ensures n < |s| ==> !IsWhitespace(s[|s| - 1 - n])
  {
    if |s| == 0 || !IsWhitespace(s[|s| - 1]) then 0 else 1 + TrailingBlanks(s[..|s| - 1])
  }

  /** `trim()`: the string without its leading and trailing whitespace. */
  function Trim(s: string): (r: string)
    ensures exists i, j :: 0 <= i <= j <= |s| && r == s[i..j]
                           && (forall k :: 0 <= k < i ==> IsWhitespace(s[k]))
                           && (forall k :: j <= k < |s| ==> IsWhitespace(s[k]))
    ensures |r| > 0 ==> !IsWhitespace(r[0]) && !IsWhitespace(r[|r| - 1])
  {
    var i := LeadingBlanks(s);
    if i == |s| then
      assert s[i..i] == [];
      []
    else
      var j := |s| - TrailingBlanks(s);
      assert i < j by {
        assert !IsWhitespace(s[i]);
      }
      s[i..j]
  }

  /** A name trims to the empty string exactly when it is blank. */
  lemma TrimEmptyIffBlank(s: string)
    ensures Trim(s) == [] <==> IsBlank(s)
  {
    var i := LeadingBlanks(s);
    if i < |s| {
      assert !IsWhitespace(s[i]);
      assert |Trim(s)| > 0;
    }
  }

  /** Trimming twice is trimming once. */
  lemma TrimIdempotent(s: string)
    ensures Trim(Trim(s)) == Trim(s)
  {
    var r := Trim(s);
    if |r| > 0 {
      assert LeadingBlanks(r) == 0;
      assert TrailingBlanks(r) == 0;
      assert r[0..|r|] == r;
    }
  }

  /** The form fields. `ects` is the credit field already parsed as a number (None when it is not
      one); the level starts at P1 and changes only when the user picks another. */
  datatype Form = Form(name: string, ects: Option<real>, level: LevelCourse, nameError: string, ectsError: string)

  /** The form as first shown. */
  function Initial(): (f: Form)
    ensures f.level == P1 && f.name == [] && f.ects.None? && f.nameError == [] && f.ectsError == []
  {
    Form([], None, P1, [], [])
  }

  datatype SaveResult = SaveResult(form: Form, course: Option<Course>)

  /** The Save click. `teacher` is the current teacher's profile, when there is one. Both checks run
      and report their errors in the same click. */
  function Save(f: Form, teacher: Option<Teacher>): (r: SaveResult)
    ensures r.form.name == f.name && r.form.ects == f.ects && r.form.level == f.level
    ensures r.form.nameError == if IsBlank(f.name) then NameMessage else f.nameError
    ensures r.form.ectsError == if f.ects.Some? && f.ects.value > 0.0 then f.ectsError else EctsMessage
    ensures r.course.Some? <==> !IsBlank(f.name) && f.ects.Some? && f.ects.value > 0.0
    ensures r.course.Some? ==>
      && r.course.value.idCourse == 0
      && r.course.value.nameCourse == Trim(f.name)
      && r.course.value.ectsCourse == f.ects.value
      && r.course.value.levelCourse == f.level
      && r.course.value.teacherId == if teacher.Some? then teacher.value.idTeacher else 0
  {
    var isValid1 := !IsBlank(f.name);
    var nameError := if IsBlank(f.name) then NameMessage else f.nameError;
    var ectsBad := f.ects.None? || f.ects.value <= 0.0;
    var ectsError := if ectsBad then EctsMessage else f.ectsError;
    var form := f.(nameError := nameError, ectsError := ectsError);
    if isValid1 && !ectsBad then
      var teacherId := match teacher case Some(t) => t.idTeacher case None => 0;
      SaveResult(form, Some(Course(0, Trim(f.name), f.ects.value, f.level, teacherId)))
    else SaveResult(form, None)
  }

  /** Every saved course has a non-empty name with no surrounding whitespace, a positive credit
      weight, and a name that a second trim leaves unchanged. */
  lemma SavedCourseWellFormed(f: Form, teacher: Option<Teacher>)
    ensures var c := Save(f, teacher).course;
      c.Some? ==>
        && |c.value.nameCourse| > 0
        && !IsWhitespace(c.value.nameCourse[0]) && !IsWhitespace(c.value.nameCourse[|c.value.nameCourse| - 1])
        && Trim(c.value.nameCourse) == c.value.nameCourse
        && c.value.ectsCourse > 0.0
  {
    TrimEmptyIffBlank(f.name);
    TrimIdempotent(f.name);
  }

  /** A blank name and a zero credit value are both reported in one click. */
  lemma BothErrorsTogether(name: string, teacher: Option<Teacher>)
    requires IsBlank(name)
    ensures var r := Save(Initial().(name := name, ects := Some(0.0)), teacher);
      r.course.None? && r.form.nameError == NameMessage && r.form.ectsError == EctsMessage
  {
  }

  /** A course saved without picking a level has level P1. */
  lemma DefaultLevelIsP1(name: string, ects: real, teacher: Option<Teacher>)
    requires !IsBlank(name) && ects > 0.0
    ensures Save(Initial().(name := name, ects := Some(ects)), teacher).course.value.levelCourse == P1
  {
  }

  /** Surrounding spaces are dropped and inner ones kept: "  Algo 1 " is saved as "Algo 1". */
  lemma TrimExample()
    ensures Trim("  Algo 1 ") == "Algo 1"
  {
    var s := "  Algo 1 ";
    assert LeadingBlanks(s[2..]) == 0;
    assert LeadingBlanks(s[1..]) == 1;
    assert LeadingBlanks(s) == 2;
    assert s[..|s| - 1][..|s[..|s| - 1]| - 1] == "  Algo ";
    assert TrailingBlanks(s[..|s| - 1]) == 0;
    assert TrailingBlanks(s) == 1;
  }
}
