# Student backend: list query, pagination and handler logic

A Dafny model of the request handlers of the student backend, an Express
server over a PostgreSQL database (`student_schema.students`,
`student_schema.courses`, `student_schema.marks`).

- `GET /students` is modelled as a method that builds the count query and the
  page query the way the handler does. The text grows by concatenation and
  the parameter list grows by a push. The method runs both statements against
  the store and answers with the page, the total page count, the total count
  and the rows of that page.
- Page and limit defaulting, the offset and the total-page ceiling are pure
  functions. Lemmas state their arithmetic meaning.
- The database is the class `Handlers.Store`, which holds the student map, the
  course map, the mark sequence and the two serial key counters.
  `GET /students/:id`, `POST /students`, `POST /courses`, `POST /marks`,
  `PUT /students/:id` and `DELETE /students/:id` are methods on it.
  - Each method returns the statements it sent, in order, as `trace`.
  - Each statement's effect is applied to the store as soon as it succeeds.
  - The parameter `failAt` names the statement that the database rejects.
    This models every error the database can raise.
  - A parameter that came from a `parseInt` that gave `NaN` is also rejected
    by the database, so that statement fails.
- The answer is `Ok`, `NotFound` (404) or `InternalError` (500, the handlers'
  `catch`).

Modules:
- `Wrappers`: `Option`.
- `Schema`: the row records.
- `Sql`: the exact statement texts, the parameter values and the failure rule.
- `Pagination`: defaulting, offset, ceiling, the page window, and the decimal
  rendering of placeholder numbers.
- `Queries`: what each SELECT returns from the store, and the referential
  invariant on marks.
- `Handlers`: the store class and its handlers.

Behaviour of the code the model keeps:
- Only `0` and `NaN` fall back to the default page and limit. A negative page
  or limit is kept. The database then rejects the negative `LIMIT` or
  `OFFSET`, and the handler answers 500.
- The added ` WHERE student_name ILIKE $1` never produces a second `WHERE` at
  the outer level. The first `WHERE` sits inside the counting subquery.
- When the count query returns no rows, the handler answers 500 instead of an
  empty page. This happens on an empty table, or when a non-empty search
  matches no name. Reading `rows[0].count` throws, and the `catch` answers.

## Model

| member | source | states |
|---|---|---|
| Pagination.OrDefault | student-backend/index.js:32-33 | a parsed value is kept unless it is 0 or NaN; exactly those fall back to the default |
| Pagination.PageOf | student-backend/index.js:32 | the page the handler uses is never 0 |
| Pagination.LimitOf | student-backend/index.js:33 | the limit the handler uses is never 0, so the division computing the page count is defined |
| Pagination.NegativeOnlyWhenAsked | student-backend/index.js:32-33 | page or limit is below 1 exactly when the client sent a negative number |
| Pagination.CeilDivBounds | student-backend/index.js:48 | totalPages is the ceiling of totalCount / limit: `(pages-1)*limit < count <= pages*limit` for a positive limit, and the mirrored bounds for a negative one |
| Pagination.CeilDivZero | student-backend/index.js:48 | for a positive limit, totalPages is never negative and is 0 exactly when totalCount is 0 |
| Pagination.Window | student-backend/index.js:53-55 | `LIMIT`/`OFFSET` never yields more rows than the limit |
| Pagination.WindowContents | student-backend/index.js:53-55 | the page holds exactly the rows from position offset on, at most limit of them, in order |
| Pagination.PagesCoverRows | student-backend/index.js:47-55 | row `i` appears on page `i / limit + 1`, which lies between 1 and totalPages, at position `i % limit` of that page's window at offset `(page-1)*limit` |
| Pagination.PageOfPosition | student-backend/index.js:49-53 | pages do not overlap: a position inside the window of page `p` forces `p == i / limit + 1`, so together with `PagesCoverRows` each row is on exactly one page |
| Pagination.PastLastPageIsEmpty | student-backend/index.js:48-55 | the page after the last one is empty |
| Pagination.DecimalString | student-backend/index.js:53 | a placeholder number renders as a non-empty string of decimal digits |
| Pagination.DecimalRoundTrip | student-backend/index.js:53 | reading back the rendered placeholder number gives the number |
| Pagination.PlaceholderDigits | student-backend/index.js:51-53 | with three parameters pushed, the placeholders render as `2` and `3` |
| Queries.SortedIds | student-backend/index.js:53 | `ORDER BY student_id` yields each student id exactly once, in increasing order, the least id first |
| Queries.FilterIds | student-backend/index.js:42-44 | the outer filter keeps exactly the selected ids and keeps their order |
| Queries.SelectedIds | student-backend/index.js:37-44 | the ids the query returns are exactly the selected ones, increasing |
| Queries.SelectRows | student-backend/index.js:37-46 | every returned row carries as its count the number of students whose name matches the pattern |
| Queries.NoRowsIff | student-backend/index.js:46-47 | the count query returns no row exactly when the table is empty (no search) or no name matches (non-empty search) |
| Queries.CountIsRowCount | student-backend/index.js:38-47 | when filtered, or when every name matches, totalCount equals the number of rows the query returns |
| Queries.IncreasingCard | student-backend/index.js:53 | an increasing id list has no duplicates: its set has as many elements as it has entries |
| Queries.MarksOf | student-backend/index.js:74 | the marks selected for a student are never more than all the marks |
| Queries.MarksExcept | student-backend/index.js:177 | deleting a student's marks never adds marks |
| Queries.MarksOfMembers | student-backend/index.js:74 | the selected marks are exactly the stored marks with that student id |
| Queries.MarksExceptMembers | student-backend/index.js:177 | after the delete, exactly the marks of other students remain |
| Queries.MarksPartition | student-backend/index.js:175-177 | the selected marks and the marks kept by the delete together make up the whole mark table, as a multiset |
| Queries.NoMarksNoDelete | student-backend/index.js:176-177 | with no marks for the student, the skipped delete would have changed nothing |
| Queries.MarksOfAppend | student-backend/index.js:136-139 | selecting marks distributes over appending an inserted mark |
| Queries.AbsentStudentHasNoMarks | student-backend/index.js:127-134 | under the referential invariant, a missing student has no marks |
| Queries.LeastExists | student-backend/index.js:53 | every non-empty set of ids has a least element |
| Handlers.Store.CountQuery | student-backend/index.js:37-44 | the count query is the counting select, plus ` WHERE student_name ILIKE $1` exactly when search is non-empty; its only parameter is `%search%` |
| Handlers.Store.PageQuery | student-backend/index.js:51-53 | the page query appends ` ORDER BY student_id LIMIT $2 OFFSET $3`; its parameters are the pattern, the limit and the offset |
| Handlers.Store.ListStudents | student-backend/index.js:31-67 | sends the count query, then the page query only if the count query returned rows; the parameters are `[pattern, limit, (page-1)*limit]`; 500 on a failing statement, on zero count rows, or on a negative limit or offset; otherwise page, ceiling page count, match count and the page window of the id-ordered rows |
| Handlers.Store.GetStudent | student-backend/index.js:69-88 | sends both selects before checking; NotFound exactly when the id is absent; otherwise the student and exactly its marks in store order; the store is not modified |
| Handlers.Store.CreateStudent | student-backend/index.js:90-104 | the serial advances even when the insert fails on a taken key; on success the new student sits at a fresh key and has no marks; keeps the invariant |
| Handlers.Store.CreateCourse | student-backend/index.js:106-120 | the course is inserted under the next serial key; a taken key is a 500; keeps the invariant |
| Handlers.Store.CreateMark | student-backend/index.js:122-146 | checks the student first: NotFound, with marks unchanged and no insert sent, exactly when the student is absent; otherwise appends exactly the given mark; keeps the referential invariant |
| Handlers.Store.UpdateStudent | student-backend/index.js:150-169 | NotFound, with the store unchanged, exactly when the id is absent; otherwise replaces that one student and nothing else; keys unchanged; keeps the invariant |
| Handlers.Store.DeleteStudent | student-backend/index.js:171-191 | deletes marks only when some exist, then the student; a missing student is NotFound and its marks stay deleted; a failing student delete keeps the marks deleted; afterwards no student and no mark with that id remain; keeps the invariant |

## Left out

- Express routing, `body-parser`, `cors`, `app.listen`, the `/test`
  connectivity probe, HTTP status codes and JSON encoding. These are transport
  plumbing; answers are the `Outcome` datatype.
- The `pg` pool, its configuration, and connection leasing. The database is an
  in-memory store, and each SQL statement is the map or sequence operation it
  performs.
- Concurrency between requests. Each handler is one sequential method.
- Database errors other than those named below are not distinguished. The
  `failAt` parameter picks the failing statement. This folds in lost
  connections, the column constraints the schema may declare and foreign
  keys on `course_id`. Body fields are modelled as present and well-typed.
- Handlers.Store.ListStudents: `parseInt` scanning is abstracted to
  `Option<int>`, with `None` for `NaN`. The `search` value is an optional
  string; array-valued query parameters are not modelled.
- Handlers.Store.ListStudents: `ILIKE` matching is the function parameter
  `matches`. Case folding and locale are not modelled.
- Handlers.Store.ListStudents: the count query has no `ORDER BY`, so
  PostgreSQL may return its rows in any order. The model returns them in id
  order; only the count column of its first row is used.
- Handlers.Store.ListStudents: `Math.ceil` on a floating-point quotient is
  integer ceiling division. `ListStudents` reports a page count only for a
  positive limit, because a negative limit answers 500 before the page is
  sent.
  Integer overflow of `(page-1)*limit` in floating point is not modelled.
- Handlers.Store.GetStudent: the marks select has no `ORDER BY`, so
  PostgreSQL may return a student's marks in any order. The model returns
  them in the order they were inserted (`Queries.MarksOf`).
- Handlers.Store.CreateStudent: the database assigns the key from a serial
  sequence, modelled as the counter `nextStudentId`. The `student_parent_id`
  foreign key is not checked. It falls under `failAt`.
- Handlers.Store.CreateCourse: the key comes from the serial counter
  `nextCourseId`.
- Handlers.Store.CreateMark: an absent or null `student_id` in the body is
  sent as SQL NULL; the existence check then matches no row and the source
  answers 404. `Mark.studentId` is an `int`, so this input is not modelled.
- Handlers.Store.CreateMark: `mark` is an `int`; a fractional JSON number in
  the body is not modelled.
- Handlers.Store.CreateStudent: an absent field in the body is written as
  NULL wherever the column allows it, and the insert succeeds. Only
  `student_parent_id` is nullable in the model; absent name, email, age or
  date of birth are not modelled. `student_age` is an `int`; a fractional
  JSON number is not modelled.
- Handlers.Store.UpdateStudent: as for `CreateStudent`, absent fields written
  as NULL and fractional ages are not modelled.
- Handlers.Store.CreateMark: the `mark_id` column and the value the database
  fills into it are not modelled. The answer is the mark as inserted.
- `console.error` logging.
