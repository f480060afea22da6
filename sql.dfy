/**
 * The parameterised statements the handlers send to PostgreSQL: their exact
 * text, their positional parameters, and the rule for when the store answers
 * one with an error.
 */
module Sql {
  import opened Wrappers

  /** A positional parameter as the `pg` driver sends it. */
  datatype Param =
    | Num(n: int)
    | NotANumber      // a JavaScript NaN, sent as the text 'NaN'
    | Str(s: string)
    | Null

  /** Query text with `$1`, `$2`, ... placeholders and the values they refer to. */
  datatype Statement = Statement(text: string, params: seq<Param>)

  const CountSelect: string :=
    "SELECT \n            (SELECT COUNT(*) FROM student_schema.students WHERE student_name ILIKE $1) AS count,\n            * FROM student_schema.students"
  const NameFilter: string := " WHERE student_name ILIKE $1"
  /** The paging clause is appended as these two pieces, each followed by a placeholder number. */
  const OrderByLimit: string := " ORDER BY student_id LIMIT $"
  const OffsetKeyword: string := " OFFSET $"
  const SelectStudentById: string := "SELECT * FROM student_schema.students WHERE student_id = $1"
  const SelectMarksByStudent: string := "SELECT * FROM student_schema.marks WHERE student_id = $1"
  const InsertStudent: string :=
    "INSERT INTO student_schema.students (student_name, student_email,student_age,student_parent_id, date_of_birth) VALUES ($1, $2, $3, $4, $5) RETURNING *"
  const InsertCourse: string :=
    "INSERT INTO student_schema.courses (course_name, course_code) VALUES ($1, $2) RETURNING *"
  const SelectStudentIdById: string := "SELECT student_id FROM student_schema.students WHERE student_id = $1"
  const InsertMark: string :=
    "INSERT INTO student_schema.marks (student_id, course_id, mark, date_recorded) VALUES ($1, $2, $3, $4) RETURNING *"
  const UpdateStudentById: string :=
    "UPDATE student_schema.students SET student_name = $1, student_email = $2, student_age = $3, student_parent_id =$4, date_of_birth = $5 WHERE student_id = $6 RETURNING *"
  const DeleteMarksOfStudent: string := "DELETE FROM student_schema.marks WHERE student_id = $1"
  const DeleteStudentById: string := "DELETE FROM student_schema.students WHERE student_id = $1 RETURNING *"

  /** The five student columns in the order both the insert and the update bind them. */
  function StudentParams(name: string, email: string, age: int, parentId: Option<int>,
                         dateOfBirth: string): seq<Param>
  {
    [Str(name), Str(email), Num(age), NullableParam(parentId), Str(dateOfBirth)]
  }

  /** A path id after `parseInt`: NaN when it could not be read. */
  function IdParam(id: Option<int>): Param {
    if id.Some? then Num(id.value) else NotANumber
  }

  /** A nullable integer column. */
  function NullableParam(v: Option<int>): Param {
    if v.Some? then Num(v.value) else Null
  }

  /**
   * Whether the store answers the statement at position `k` of a request
   * with an error: either the store fails there (connection lost, a
   * constraint, ...), which `failAt` names, or the statement binds NaN to an
   * integer column, which PostgreSQL rejects as invalid input.
   */
  predicate Fails(k: nat, st: Statement, failAt: Option<nat>) {
    failAt == Some(k) || NotANumber in st.params
  }

}
