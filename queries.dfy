/**
 * What each statement the handlers send means over the store's contents:
 * the rows PostgreSQL returns for the list query, the marks of one student,
 * and the marks a cascading delete leaves behind.
 */
module Queries {
  import opened Schema

  /** Every mark refers to a student that exists. */
  ghost predicate Referential(students: map<int, Student>, marks: seq<Mark>) {
    forall m :: m in marks ==> m.studentId in students
  }

  predicate Increasing(s: seq<int>) {
    forall i, j :: 0 <= i < j < |s| ==> s[i] < s[j]
  }

  // ---------------------------------------------------------------------------
  // `ORDER BY student_id`

  lemma NonEmptyHasMember(ids: set<int>)
    requires ids != {}
    ensures exists y :: y in ids
  {
    if forall y :: y !in ids {
      assert false;
    }
  }

  ghost predicate IsLeast(m: int, ids: set<int>) {
    m in ids && forall x :: x in ids ==> m <= x
  }

  lemma {:induction false} LeastExists(ids: set<int>)
    requires ids != {}
    ensures exists m :: IsLeast(m, ids)
  {
    NonEmptyHasMember(ids);
    var y :| y in ids;
    if ids == {y} {
      assert IsLeast(y, ids);
    } else {
      var others := ids - {y};
      LeastExists(others);
      var m :| IsLeast(m, others);
      assert forall x :: x in ids ==> x == y || x in others;
      if y < m {
        assert IsLeast(y, ids);
      } else {
        assert IsLeast(m, ids);
      }
    }
  }

  /** The keys of a table in ascending order, each once. */
  function SortedIds(ids: set<int>): (r: seq<int>)
    ensures Increasing(r)
    ensures forall x :: x in r <==> x in ids
    ensures r != [] ==> IsLeast(r[0], ids)
    decreases ids
  {
    if ids == {} then []
    else
      LeastExists(ids);
      var m :| m in ids && forall x :: x in ids ==> m <= x;
      var rest := SortedIds(ids - {m});
      assert forall k :: 0 <= k < |rest| ==> m < rest[k] by {
        forall k | 0 <= k < |rest| ensures m < rest[k] {
          assert rest[k] in ids - {m};
        }
      }
      [m] + rest
  }

  // ---------------------------------------------------------------------------
  // The list query: `SELECT (count subquery) AS count, * FROM students [WHERE ...]`

  /**
   * Whether the student with this id is a row of the list query: the outer
   * `WHERE student_name ILIKE $1` is present only when `filtered`. ILIKE
   * itself is left abstract as `matches(name, pattern)`.
   */
  predicate Selected(students: map<int, Student>, filtered: bool, pattern: string,
                     matches: (string, string) -> bool, id: int)
  {
    id in students && (!filtered || matches(students[id].name, pattern))
  }

  /** The value of the count subquery, which always applies the filter. */
  function MatchCount(students: map<int, Student>, pattern: string,
                      matches: (string, string) -> bool): nat
  {
    |set id | id in students && matches(students[id].name, pattern)|
  }

  /** The selected ids among `ids`, in their order. */
  function FilterIds(ids: seq<int>, students: map<int, Student>, filtered: bool, pattern: string,
                     matches: (string, string) -> bool): (r: seq<int>)
    ensures forall id :: id in r <==> id in ids && Selected(students, filtered, pattern, matches, id)
    ensures Increasing(ids) ==> Increasing(r)
  {
    if ids == [] then []
    else
      var rest := FilterIds(ids[1..], students, filtered, pattern, matches);
      assert forall id :: id in ids <==> id == ids[0] || id in ids[1..];
      if Selected(students, filtered, pattern, matches, ids[0]) then
        assert Increasing(ids) ==> forall k :: 0 <= k < |rest| ==> ids[0] < rest[k] by {
          if Increasing(ids) {
            forall k | 0 <= k < |rest| ensures ids[0] < rest[k] {
              assert rest[k] in ids[1..];
            }
          }
        }
        [ids[0]] + rest
      else rest
  }

  /** The ids of the list query's rows, in `student_id` order. */
  function SelectedIds(students: map<int, Student>, filtered: bool, pattern: string,
                       matches: (string, string) -> bool): (ids: seq<int>)
    ensures Increasing(ids)
    ensures forall id :: id in ids <==> Selected(students, filtered, pattern, matches, id)
  {
    FilterIds(SortedIds(students.Keys), students, filtered, pattern, matches)
  }

  /**
   * The rows of the list query in `student_id` order, each carrying the
   * count column. Without `ORDER BY` the first query's row order is not
   * fixed, but the handler only reads the count column, which is the same on
   * every row.
   */
  function SelectRows(students: map<int, Student>, filtered: bool, pattern: string,
                      matches: (string, string) -> bool): (rows: seq<ListRow>)
    ensures forall k :: 0 <= k < |rows| ==> rows[k].count == MatchCount(students, pattern, matches)
  {
    var ids := SelectedIds(students, filtered, pattern, matches);
    var count := MatchCount(students, pattern, matches);
    seq(|ids|, k requires 0 <= k < |ids| =>
      assert ids[k] in ids;
      ListRow(count, StudentRow(ids[k], students[ids[k]])))
  }

  /**
   * The list query returns no row exactly when the table is empty (no
   * search) or when no name matches the search.
   */
  lemma NoRowsIff(students: map<int, Student>, filtered: bool, pattern: string,
                  matches: (string, string) -> bool)
    ensures SelectRows(students, filtered, pattern, matches) == [] <==>
            if filtered then forall id :: id in students ==> !matches(students[id].name, pattern)
            else students == map[]
  {
    var ids := SelectedIds(students, filtered, pattern, matches);
    if ids != [] {
      assert ids[0] in ids;
      assert Selected(students, filtered, pattern, matches, ids[0]);
    } else if !filtered {
      if students != map[] {
        NonEmptyHasMember(students.Keys);
      }
    } else {
      forall id | id in students ensures !matches(students[id].name, pattern) {
        assert !Selected(students, filtered, pattern, matches, id);
      }
    }
  }

  lemma {:induction false} IncreasingCard(s: seq<int>)
    requires Increasing(s)
    ensures |set x | x in s| == |s|
  {
    if s != [] {
      IncreasingCard(s[1..]);
      assert (set x | x in s) == {s[0]} + (set x | x in s[1..]);
      assert s[0] !in s[1..];
    }
  }

  /**
   * When the filter is applied to the rows as well as to the count, or when
   * the pattern matches every name (as `'%%'` does for the empty search), the
   * count column equals the number of rows.
   */
  lemma CountIsRowCount(students: map<int, Student>, filtered: bool, pattern: string,
                        matches: (string, string) -> bool)
    requires filtered || forall id :: id in students ==> matches(students[id].name, pattern)
    ensures |SelectRows(students, filtered, pattern, matches)| == MatchCount(students, pattern, matches)
  {
    var ids := SelectedIds(students, filtered, pattern, matches);
    IncreasingCard(ids);
    var matching := set id | id in students && matches(students[id].name, pattern);
    assert (set x | x in ids) == matching by {
      forall x ensures x in ids <==> x in matching {
        assert x in ids <==> Selected(students, filtered, pattern, matches, x);
      }
    }
  }

  // ---------------------------------------------------------------------------
  // Marks of one student

  /** `SELECT * FROM marks WHERE student_id = $1`, in store order. */
  function MarksOf(marks: seq<Mark>, id: int): (r: seq<Mark>)
    ensures |r| <= |marks|
  {
    if marks == [] then []
    else (if marks[0].studentId == id then [marks[0]] else []) + MarksOf(marks[1..], id)
  }

  /** The marks left by `DELETE FROM marks WHERE student_id = $1`, in store order. */
  function MarksExcept(marks: seq<Mark>, id: int): (r: seq<Mark>)
    ensures |r| <= |marks|
  {
    if marks == [] then []
    else (if marks[0].studentId != id then [marks[0]] else []) + MarksExcept(marks[1..], id)
  }

  /** The marks read for a student are exactly the stored marks that refer to it. */
  lemma {:induction false} MarksOfMembers(marks: seq<Mark>, id: int)
    ensures forall m :: m in MarksOf(marks, id) <==> m in marks && m.studentId == id
  {
    if marks != [] {
      MarksOfMembers(marks[1..], id);
      assert forall m :: m in marks <==> m == marks[0] || m in marks[1..];
    }
  }

  /** A cascading delete keeps exactly the marks of other students. */
  lemma {:induction false} MarksExceptMembers(marks: seq<Mark>, id: int)
    ensures forall m :: m in MarksExcept(marks, id) <==> m in marks && m.studentId != id
  {
    if marks != [] {
      MarksExceptMembers(marks[1..], id);
      assert forall m :: m in marks <==> m == marks[0] || m in marks[1..];
    }
  }

  /** Selecting and deleting one student's marks split the table: nothing lost, nothing duplicated. */
  lemma {:induction false} MarksPartition(marks: seq<Mark>, id: int)
    ensures multiset(MarksOf(marks, id)) + multiset(MarksExcept(marks, id)) == multiset(marks)
  {
    if marks != [] {
      var h, t := marks[0], marks[1..];
      MarksPartition(t, id);
      assert marks == [h] + t;
    }
  }

  /** Deleting the marks of a student who has none leaves the table as it was. */
  lemma {:induction false} NoMarksNoDelete(marks: seq<Mark>, id: int)
    requires MarksOf(marks, id) == []
    ensures MarksExcept(marks, id) == marks
  {
    if marks != [] {
      NoMarksNoDelete(marks[1..], id);
      assert marks == [marks[0]] + marks[1..];
    }
  }

  /** The marks of a student, read from a table grown at its end, keep the store order. */
  lemma {:induction false} MarksOfAppend(marks: seq<Mark>, more: seq<Mark>, id: int)
    ensures MarksOf(marks + more, id) == MarksOf(marks, id) + MarksOf(more, id)
  {
    if marks == [] {
      assert marks + more == more;
    } else {
      var h, t := marks[0], marks[1..];
      var hd := if h.studentId == id then [h] else [];
      MarksOfAppend(t, more, id);
      assert (marks + more)[0] == h;
      assert (marks + more)[1..] == t + more;
      assert MarksOf(marks + more, id) == hd + MarksOf(t + more, id);
      assert MarksOf(marks, id) == hd + MarksOf(t, id);
      assert hd + (MarksOf(t, id) + MarksOf(more, id)) == (hd + MarksOf(t, id)) + MarksOf(more, id);
    }
  }

  /** Under the referential invariant a missing student has no marks. */
  lemma AbsentStudentHasNoMarks(students: map<int, Student>, marks: seq<Mark>, id: int)
    requires Referential(students, marks) && id !in students
    ensures MarksOf(marks, id) == []
  {
    MarksOfMembers(marks, id);
  }

}
