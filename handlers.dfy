/**
 * The request handlers of the student backend over an in-memory picture of
 * the database. Each handler is one method that sends its statements in the
 * source's order, applies each one's effect to the store as soon as it
 * succeeds, and answers `Ok`, `NotFound` or `InternalError`. The statements
 * sent are returned as `trace`, ending with the one the store rejected, if
 * any; `failAt` says which statement of the request the store rejects.
 */
module Handlers {
  import opened Wrappers
  import opened Schema
  import opened Sql
  import opened Pagination
  import opened Queries

  /** A handler's answer without its HTTP status and JSON encoding (200/201, 404, 500). */
  datatype Outcome<T> = Ok(value: T) | NotFound | InternalError

  /** The body of a successful `GET /students`. */
  datatype ListPage = ListPage(page: int, totalPages: int, totalCount: nat, students: seq<ListRow>)

  /** The body of a successful `GET /students/:id`. */
  datatype StudentWithMarks = StudentWithMarks(student: StudentRow, marks: seq<Mark>)

  const DeletedMessage: string := "Student deleted successfully"

  class Store {
    var students: map<int, Student>
    var courses: map<int, Course>
    var marks: seq<Mark>
    /** The next values of the serial key sequences of `students` and `courses`. */
    var nextStudentId: int
    var nextCourseId: int

    /**
     * Every mark refers to an existing student (the check in `CreateMark`
     * keeps this), and the serial sequences are ahead of every key.
     */
    ghost predicate Valid()
      reads this
    {
      && Referential(students, marks)
      && (forall id :: id in students ==> id < nextStudentId)
      && (forall id :: id in courses ==> id < nextCourseId)
    }

    constructor ()
      ensures Valid()
      ensures students == map[] && courses == map[] && marks == []
    {
      students, courses, marks := map[], map[], [];
      nextStudentId, nextCourseId := 1, 1;
    }

    /**
     * The count query of `GET /students`: the text starts as the counting
     * select and gains the name filter only for a non-empty search; its one
     * parameter is the `%search%` pattern.
     */
    static method CountQuery(searchQuery: string) returns (st: Statement)
      ensures st.text == if searchQuery != "" then CountSelect + NameFilter else CountSelect
      ensures st.params == [Str("%" + searchQuery + "%")]
    {
      var queryText := CountSelect;
      var queryParams := [Str(Pattern(searchQuery))];
      if searchQuery != "" {
        queryText := queryText + NameFilter;
      }
      st := Statement(queryText, queryParams);
    }

    /**
     * The page query of `GET /students`: pushes the limit and the offset onto
     * the count query's parameters and appends the paging clause, whose
     * placeholders are numbered from the length of the parameter list.
     */
    static method PageQuery(countQuery: Statement, limit: int, offset: int) returns (st: Statement)
      requires |countQuery.params| == 1
      ensures st.text == countQuery.text + OrderByLimit + "2" + OffsetKeyword + "3"
      ensures st.params == countQuery.params + [Num(limit), Num(offset)]
    {
      var queryText := countQuery.text;
      var queryParams := countQuery.params;
      queryParams := queryParams + [Num(limit), Num(offset)];
      PlaceholderDigits();
      queryText := queryText + OrderByLimit + DecimalString(|queryParams| - 1)
                             + OffsetKeyword + DecimalString(|queryParams|);
      st := Statement(queryText, queryParams);
    }

    /**
     * `GET /students?page&limit&search`: defaults the parameters, builds the
     * count-and-rows query, reads the total from the first row, then appends
     * ordering and paging and runs the query again for the page.
     */
    method ListStudents(pageArg: Option<int>, limitArg: Option<int>, searchArg: Option<string>,
                        matches: (string, string) -> bool, failAt: Option<nat>)
      returns (out: Outcome<ListPage>, trace: seq<Statement>)
      ensures 1 <= |trace| <= 2
      ensures var search := SearchOrEmpty(searchArg);
              trace[0] == Statement(if search != "" then CountSelect + NameFilter else CountSelect,
                                    [Str("%" + search + "%")])
      ensures var search := SearchOrEmpty(searchArg);
              |trace| == 2 <==>
                failAt != Some(0) && SelectRows(students, search != "", Pattern(search), matches) != []
      ensures var search, limit := SearchOrEmpty(searchArg), LimitOf(limitArg);
              |trace| == 2 ==>
                trace[1] == Statement(trace[0].text + OrderByLimit + "2" + OffsetKeyword + "3",
                                      [Str("%" + search + "%"), Num(limit),
                                       Num(PageOffset(PageOf(pageArg), limit))])
      ensures var limit := LimitOf(limitArg);
              out.InternalError? <==>
                |trace| == 1 || failAt == Some(1) || limit < 0 || PageOffset(PageOf(pageArg), limit) < 0
      ensures !out.NotFound?
      ensures var search, page, limit := SearchOrEmpty(searchArg), PageOf(pageArg), LimitOf(limitArg);
              var rows := SelectRows(students, search != "", Pattern(search), matches);
              var count := MatchCount(students, Pattern(search), matches);
              out.Ok? ==>
                && limit > 0 && PageOffset(page, limit) >= 0
                && out.value == ListPage(page, CeilDiv(count, limit), count,
                                         Window(rows, PageOffset(page, limit), limit))
    {
      var page := PageOf(pageArg);
      var limit := LimitOf(limitArg);
      var searchQuery := SearchOrEmpty(searchArg);

      var countQuery := CountQuery(searchQuery);
      trace := [countQuery];
      if Fails(0, countQuery, failAt) {
        out := InternalError;
        return;
      }
      var result := SelectRows(students, searchQuery != "", Pattern(searchQuery), matches);
      if |result| == 0 {
        // `result.rows[0].count` throws a TypeError, which the handler's catch answers with 500
        out := InternalError;
        return;
      }
      var totalCount := result[0].count;
      var totalPages := CeilDiv(totalCount, limit);
      var offset := PageOffset(page, limit);

      var pageQuery := PageQuery(countQuery, limit, offset);
      trace := [countQuery, pageQuery];
      // PostgreSQL rejects a negative LIMIT and a negative OFFSET
      if Fails(1, pageQuery, failAt) || limit < 0 || offset < 0 {
        out := InternalError;
        return;
      }
      var rows := SelectRows(students, searchQuery != "", Pattern(searchQuery), matches);
      out := Ok(ListPage(page, totalPages, totalCount, Window(rows, offset, limit)));
    }

    /**
     * `GET /students/:id`: looks the student up, reads its marks (even when
     * the student is missing), then answers 404 if there was no student.
     */
    method GetStudent(id: Option<int>, failAt: Option<nat>)
      returns (out: Outcome<StudentWithMarks>, trace: seq<Statement>)
      ensures var byId, marksQuery := Statement(SelectStudentById, [IdParam(id)]),
                                      Statement(SelectMarksByStudent, [IdParam(id)]);
              trace == if id.None? || failAt == Some(0) then [byId] else [byId, marksQuery]
      ensures out.InternalError? <==> id.None? || failAt == Some(0) || failAt == Some(1)
      ensures out.NotFound? <==> id.Some? && failAt != Some(0) && failAt != Some(1) && id.value !in students
      ensures out.Ok? ==>
                && id.Some? && id.value in students
                && out.value == StudentWithMarks(StudentRow(id.value, students[id.value]),
                                                 MarksOf(marks, id.value))
    {
      var byId := Statement(SelectStudentById, [IdParam(id)]);
      trace := [byId];
      if Fails(0, byId, failAt) {
        out := InternalError;
        return;
      }
      var studentId := id.value;
      var studentRows := if studentId in students then [StudentRow(studentId, students[studentId])] else [];

      var marksQuery := Statement(SelectMarksByStudent, [IdParam(id)]);
      trace := trace + [marksQuery];
      if Fails(1, marksQuery, failAt) {
        out := InternalError;
        return;
      }
      var markRows := MarksOf(marks, studentId);

      if |studentRows| == 0 {
        out := NotFound;
        return;
      }
      out := Ok(StudentWithMarks(studentRows[0], markRows));
    }

    /**
     * `POST /students`: inserts the row; the key comes from the table's
     * serial sequence, which advances even when the insert then fails on a
     * key that is already taken.
     */
    method CreateStudent(s: Student, failAt: Option<nat>)
      returns (out: Outcome<StudentRow>, trace: seq<Statement>)
      modifies this`students, this`nextStudentId
      ensures trace == [Statement(InsertStudent,
                                  StudentParams(s.name, s.email, s.age, s.parentId, s.dateOfBirth))]
      ensures failAt == Some(0) ==>
                out.InternalError? && students == old(students) && nextStudentId == old(nextStudentId)
      ensures failAt != Some(0) ==> nextStudentId == old(nextStudentId) + 1
      ensures failAt != Some(0) && old(nextStudentId) in old(students) ==>
                out.InternalError? && students == old(students)
      ensures failAt != Some(0) && old(nextStudentId) !in old(students) ==>
                out == Ok(StudentRow(old(nextStudentId), s)) &&
                students == old(students)[old(nextStudentId) := s]
      ensures old(Valid()) ==> Valid()
      ensures old(Valid()) && out.Ok? ==> out.value.id !in old(students) && MarksOf(marks, out.value.id) == []
    {
      var insert := Statement(InsertStudent,
                              StudentParams(s.name, s.email, s.age, s.parentId, s.dateOfBirth));
      trace := [insert];
      if Fails(0, insert, failAt) {
        out := InternalError;
        return;
      }
      var id := nextStudentId;
      nextStudentId := nextStudentId + 1;
      if id in students {
        // duplicate key: the unique index on student_id rejects the row
        out := InternalError;
        return;
      }
      students := students[id := s];
      out := Ok(StudentRow(id, s));
      if old(Valid()) {
        AbsentStudentHasNoMarks(old(students), marks, id);
      }
    }

    /** `POST /courses`: inserts the row with the next serial key. */
    method CreateCourse(c: Course, failAt: Option<nat>)
      returns (out: Outcome<CourseRow>, trace: seq<Statement>)
      modifies this`courses, this`nextCourseId
      ensures trace == [Statement(InsertCourse, [Str(c.name), Str(c.code)])]
      ensures failAt == Some(0) ==>
                out.InternalError? && courses == old(courses) && nextCourseId == old(nextCourseId)
      ensures failAt != Some(0) ==> nextCourseId == old(nextCourseId) + 1
      ensures failAt != Some(0) && old(nextCourseId) in old(courses) ==>
                out.InternalError? && courses == old(courses)
      ensures failAt != Some(0) && old(nextCourseId) !in old(courses) ==>
                out == Ok(CourseRow(old(nextCourseId), c)) && courses == old(courses)[old(nextCourseId) := c]
      ensures old(Valid()) ==> Valid()
    {
      var insert := Statement(InsertCourse, [Str(c.name), Str(c.code)]);
      trace := [insert];
      if Fails(0, insert, failAt) {
        out := InternalError;
        return;
      }
      var id := nextCourseId;
      nextCourseId := nextCourseId + 1;
      if id in courses {
        out := InternalError;
        return;
      }
      courses := courses[id := c];
      out := Ok(CourseRow(id, c));
    }

    /**
     * `POST /marks`: checks that the referenced student exists and answers
     * 404 before inserting anything if it does not.
     */
    method CreateMark(m: Mark, failAt: Option<nat>)
      returns (out: Outcome<Mark>, trace: seq<Statement>)
      modifies this`marks
      ensures var check := Statement(SelectStudentIdById, [Num(m.studentId)]);
              var insert := Statement(InsertMark, [Num(m.studentId), Num(m.courseId), Num(m.mark),
                                                   Str(m.dateRecorded)]);
              trace == if failAt == Some(0) || m.studentId !in students then [check] else [check, insert]
      ensures out.NotFound? <==> failAt != Some(0) && m.studentId !in students
      ensures out.InternalError? <==> failAt == Some(0) || (failAt == Some(1) && m.studentId in students)
      ensures out.Ok? ==> out.value == m
      ensures marks == if out.Ok? then old(marks) + [m] else old(marks)
      ensures old(Valid()) ==> Valid()
    {
      var check := Statement(SelectStudentIdById, [Num(m.studentId)]);
      trace := [check];
      if Fails(0, check, failAt) {
        out := InternalError;
        return;
      }
      var studentExists := if m.studentId in students then [m.studentId] else [];
      if |studentExists| == 0 {
        out := NotFound;
        return;
      }
      var insert := Statement(InsertMark, [Num(m.studentId), Num(m.courseId), Num(m.mark),
                                           Str(m.dateRecorded)]);
      trace := trace + [insert];
      if Fails(1, insert, failAt) {
        out := InternalError;
        return;
      }
      marks := marks + [m];
      out := Ok(m);
    }

    /** `PUT /students/:id`: replaces all five columns of one student in one statement. */
    method UpdateStudent(id: Option<int>, s: Student, failAt: Option<nat>)
      returns (out: Outcome<StudentRow>, trace: seq<Statement>)
      modifies this`students
      ensures trace == [Statement(UpdateStudentById,
                                  StudentParams(s.name, s.email, s.age, s.parentId, s.dateOfBirth)
                                  + [IdParam(id)])]
      ensures out.InternalError? <==> id.None? || failAt == Some(0)
      ensures out.NotFound? <==> id.Some? && failAt != Some(0) && id.value !in old(students)
      ensures out.Ok? ==> out.value == StudentRow(id.value, s) && students == old(students)[id.value := s]
      ensures !out.Ok? ==> students == old(students)
      ensures students.Keys == old(students.Keys)
      ensures old(Valid()) ==> Valid()
    {
      var update := Statement(UpdateStudentById,
                              StudentParams(s.name, s.email, s.age, s.parentId, s.dateOfBirth)
                              + [IdParam(id)]);
      trace := [update];
      if Fails(0, update, failAt) {
        out := InternalError;
        return;
      }
      var studentId := id.value;
      if studentId !in students {
        out := NotFound;
        return;
      }
      students := students[studentId := s];
      out := Ok(StudentRow(studentId, s));
    }

    /**
     * `DELETE /students/:id`: reads the student's marks, deletes them if
     * there are any, then deletes the student. The two deletes are separate
     * statements: nothing undoes the first when the second fails or finds
     * no student.
     */
    method DeleteStudent(id: Option<int>, failAt: Option<nat>)
      returns (out: Outcome<string>, trace: seq<Statement>)
      modifies this`students, this`marks
      ensures var selectMarks := Statement(SelectMarksByStudent, [IdParam(id)]);
              id.None? || failAt == Some(0) ==>
                out.InternalError? && trace == [selectMarks] &&
                marks == old(marks) && students == old(students)
      ensures var selectMarks, deleteMarks := Statement(SelectMarksByStudent, [IdParam(id)]),
                                              Statement(DeleteMarksOfStudent, [IdParam(id)]);
              id.Some? && failAt == Some(1) && MarksOf(old(marks), id.value) != [] ==>
                out.InternalError? && trace == [selectMarks, deleteMarks] &&
                marks == old(marks) && students == old(students)
      ensures var selectMarks, deleteMarks, deleteStudent :=
                Statement(SelectMarksByStudent, [IdParam(id)]),
                Statement(DeleteMarksOfStudent, [IdParam(id)]),
                Statement(DeleteStudentById, [IdParam(id)]);
              id.Some? ==>
                var had := MarksOf(old(marks), id.value) != [];
                var last := if had then 2 else 1;
                failAt != Some(0) && !(had && failAt == Some(1)) ==>
                  && trace == [selectMarks] + (if had then [deleteMarks] else []) + [deleteStudent]
                  && marks == MarksExcept(old(marks), id.value)
                  && (failAt == Some(last) ==> out.InternalError? && students == old(students))
                  && (failAt != Some(last) ==>
                        students == old(students) - {id.value} &&
                        out == if id.value in old(students) then Ok(DeletedMessage) else NotFound)
      ensures !out.InternalError? ==>
                id.Some? && id.value !in students && forall m :: m in marks ==> m.studentId != id.value
      ensures old(Valid()) ==> Valid()
    {
      var selectMarks := Statement(SelectMarksByStudent, [IdParam(id)]);
      trace := [selectMarks];
      if Fails(0, selectMarks, failAt) {
        out := InternalError;
        return;
      }
      var studentId := id.value;
      var marksResult := MarksOf(marks, studentId);
      MarksExceptMembers(marks, studentId);
      if |marksResult| > 0 {
        var deleteMarks := Statement(DeleteMarksOfStudent, [IdParam(id)]);
        trace := trace + [deleteMarks];
        if Fails(1, deleteMarks, failAt) {
          out := InternalError;
          return;
        }
        marks := MarksExcept(marks, studentId);
      } else {
        NoMarksNoDelete(marks, studentId);
      }

      var deleteStudent := Statement(DeleteStudentById, [IdParam(id)]);
      trace := trace + [deleteStudent];
      if Fails(|trace| - 1, deleteStudent, failAt) {
        out := InternalError;
        return;
      }
      var deleted := if studentId in students then [StudentRow(studentId, students[studentId])] else [];
      students := students - {studentId};
      if |deleted| == 0 {
        out := NotFound;
        return;
      }
      out := Ok(DeletedMessage);
    }
  }

}
