/** The records of the app's five tables. Identifiers are the auto-generated primary keys;
    the value 0 stands for "not yet assigned", as in the entities' default arguments. */
module Entities {

  /** Study level of a student or course. Only the default level P1 is named here; the other
      levels are distinguished by name. */
  datatype LevelCourse = P1 | OtherLevel(name: string)

  datatype Gender = Male | Female | NotConcerned

  /** A login identity. `role` holds the stored string of a role; emails are unique. */
  datatype User = User(id: int, email: string, passwordHash: string, role: string)

  /** A student profile linked to a user by `userId`. `dateOfBirth` is a timestamp. */
  datatype Student = Student(idStudent: int, userId: int, lastName: string, firstName: string,
                             dateOfBirth: int, gender: Gender, level: LevelCourse)

  /** A teacher profile linked to a user by `userId`. */
  datatype Teacher = Teacher(idTeacher: int, userId: int, lastName: string, firstName: string)

  /** A course and its credit weight. */
  datatype Course = Course(idCourse: int, nameCourse: string, ectsCourse: real,
                           levelCourse: LevelCourse, teacherId: int)

  /** An enrollment of a student in a course, with a score on the 0..20 scale. */
  datatype Subscribe = Subscribe(id: int, studentId: int, courseId: int, score: real)

  /** The inclusive score range the input screens accept. */
  const MinScore: real := 0.0
  const MaxScore: real := 20.0

  predicate InScoreRange(x: real) {
    MinScore <= x <= MaxScore
  }
}
