/**
 * The rows of the `student_schema` tables as the handlers see them.
 * Identities (`student_id`, `course_id`) are kept as map keys in the store
 * and paired with the record only where a row is returned to a client.
 */
module Schema {
  import opened Wrappers

  /** A row of `students` without its key: the five columns a client writes. */
  datatype Student = Student(
    name: string,
    email: string,
    age: int,
    parentId: Option<int>,   // nullable reference to another student
    dateOfBirth: string)

  /** A `students` row with its key, as `RETURNING *` and `SELECT *` give it. */
  datatype StudentRow = StudentRow(id: int, student: Student)

  /** A row of `courses` without its key. */
  datatype Course = Course(name: string, code: string)

  datatype CourseRow = CourseRow(id: int, course: Course)

  /** A row of `marks`; its own serial key is not modelled. */
  datatype Mark = Mark(studentId: int, courseId: int, mark: int, dateRecorded: string)

  /** A row of the list query: the count column followed by the student's columns. */
  datatype ListRow = ListRow(count: nat, row: StudentRow)

}
