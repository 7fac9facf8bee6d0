/**
 * The college records store: students, subjects and marks, the inner join
 * the mark queries range over, and the per-group aggregates (count, sum,
 * average) that the queries compare.  Averages are never divided out: two
 * groups are compared by cross-multiplying sums with counts.
 */
module Records {

  /** One row of the marks table: the grade and the ids it refers to. */
  datatype Mark = Mark(mark: int, studentId: int, subjectId: int)

  /** The whole store: students (id -> name), subjects (id -> subject name), marks in insertion order. */
  datatype Db = Db(students: map<int, string>, subjects: map<int, string>, marks: seq<Mark>)

  /** An (id, name) projection of a student or of a subject. */
  datatype IdName = IdName(id: int, name: string)

  /** A mark joined with the student and the subject it refers to. */
  datatype Row = Row(mark: int, student: IdName, subject: IdName)

  datatype Option<T> = None | Some(value: T)

  /** Which entity a query groups by. */
  datatype Side = StudentSide | SubjectSide

  /** Referential integrity: every mark refers to an existing student and an existing subject. */
  ghost predicate Valid(db: Db)
  {
    forall m :: m in db.marks ==> m.studentId in db.students && m.subjectId in db.subjects
  }

  predicate NoDup<T(==)>(s: seq<T>)
  {
    forall i, j :: 0 <= i < j < |s| ==> s[i] != s[j]
  }

  function Min(a: int, b: int): int
  {
    if a <= b then a else b
  }

  // ---------------------------------------------------------------- join

  /** Does the mark survive the inner join with both entity tables? */
  predicate Joins(students: map<int, string>, subjects: map<int, string>, m: Mark)
  {
    m.studentId in students && m.subjectId in subjects
  }

  function RowOf(students: map<int, string>, subjects: map<int, string>, m: Mark): Row
    requires Joins(students, subjects, m)
  {
    Row(m.mark, IdName(m.studentId, students[m.studentId]), IdName(m.subjectId, subjects[m.subjectId]))
  }

  /** The inner join of the marks `ms` with students and subjects, in mark order. */
  function JoinMarks(students: map<int, string>, subjects: map<int, string>, ms: seq<Mark>): (r: seq<Row>)
    ensures |r| <= |ms|
    ensures forall m :: m in ms && Joins(students, subjects, m) ==> RowOf(students, subjects, m) in r
    ensures forall row :: row in r ==>
              exists m :: m in ms && Joins(students, subjects, m) && row == RowOf(students, subjects, m)
  {
    if ms == [] then []
    else
      var pre, m := JoinMarks(students, subjects, ms[..|ms| - 1]), ms[|ms| - 1];
      assert ms == ms[..|ms| - 1] + [m];
      if Joins(students, subjects, m) then pre + [RowOf(students, subjects, m)] else pre
  }

  /** The joined marks table every mark query ranges over. */
  function Join(db: Db): seq<Row>
  {
    JoinMarks(db.students, db.subjects, db.marks)
  }

  // ---------------------------------------------------------- aggregates

  function KeyOf(row: Row, side: Side): IdName
  {
    match side
    case StudentSide => row.student
    case SubjectSide => row.subject
  }

  /** count(m.mark) of the group whose key is `k`. */
  function Count(rows: seq<Row>, side: Side, k: IdName): (c: nat)
    ensures c <= |rows|
    ensures c > 0 <==> exists row :: row in rows && KeyOf(row, side) == k
  {
    if rows == [] then 0
    else
      var last := rows[|rows| - 1];
      assert rows == rows[..|rows| - 1] + [last];
      Count(rows[..|rows| - 1], side, k) + (if KeyOf(last, side) == k then 1 else 0)
  }

  /** sum(m.mark) of the group whose key is `k`. */
  function Total(rows: seq<Row>, side: Side, k: IdName): int
  {
    if rows == [] then 0
    else Total(rows[..|rows| - 1], side, k) + (if KeyOf(rows[|rows| - 1], side) == k then rows[|rows| - 1].mark else 0)
  }

  /** sum of all marks of the joined rows. */
  function SumRows(rows: seq<Row>): int
  {
    if rows == [] then 0 else SumRows(rows[..|rows| - 1]) + rows[|rows| - 1].mark
  }

  /** sum of all marks of the marks table. */
  function SumMarks(ms: seq<Mark>): int
  {
    if ms == [] then 0 else SumMarks(ms[..|ms| - 1]) + ms[|ms| - 1].mark
  }

  /** The average of group `a` is at least the average of group `b`. */
  predicate AvgAtLeast(rows: seq<Row>, side: Side, a: IdName, b: IdName)
  {
    Total(rows, side, a) * Count(rows, side, b) >= Total(rows, side, b) * Count(rows, side, a)
  }

  /** `select distinct f(row) from rows where keep(row)`, in order of first appearance. */
  function SelectDistinct<T(==,!new)>(rows: seq<Row>, keep: Row -> bool, f: Row -> T): (r: seq<T>)
    ensures NoDup(r)
    ensures forall x :: x in r <==> exists row :: row in rows && keep(row) && f(row) == x
  {
    if rows == [] then []
    else
      var pre, last := SelectDistinct(rows[..|rows| - 1], keep, f), rows[|rows| - 1];
      assert rows == rows[..|rows| - 1] + [last];
      if keep(last) && f(last) !in pre then pre + [f(last)] else pre
  }

  /** `select row from rows where keep(row)`: the kept rows, in row order, each as often as in `rows`. */
  function Filter(rows: seq<Row>, keep: Row -> bool): (r: seq<Row>)
    ensures |r| <= |rows|
    ensures forall row :: row in r <==> row in rows && keep(row)
    ensures forall row :: multiset(r)[row] == if keep(row) then multiset(rows)[row] else 0
  {
    if rows == [] then []
    else
      var pre, last := Filter(rows[..|rows| - 1], keep), rows[|rows| - 1];
      assert rows == rows[..|rows| - 1] + [last];
      if keep(last) then pre + [last] else pre
  }

  /** A row appended to the input is appended to the output exactly when it is kept. */
  lemma FilterAppend(rows: seq<Row>, row: Row, keep: Row -> bool)
    ensures Filter(rows + [row], keep) == Filter(rows, keep) + (if keep(row) then [row] else [])
  {
    assert (rows + [row])[..|rows|] == rows;
  }

  /** The mark values of `rows`, one per row, in row order. */
  function MarksOf(rows: seq<Row>): (r: seq<int>)
    ensures |r| == |rows|
    ensures forall i :: 0 <= i < |rows| ==> r[i] == rows[i].mark
  {
    seq(|rows|, i requires 0 <= i < |rows| => rows[i].mark)
  }

  lemma MarksOfAppend(rows: seq<Row>, row: Row)
    ensures MarksOf(rows + [row]) == MarksOf(rows) + [row.mark]
  {
  }

  /** The groups of a `group by` on `side`: one key per entity that has a row. */
  function Keys(rows: seq<Row>, side: Side): (r: seq<IdName>)
    ensures NoDup(r)
    ensures forall k :: k in r <==> Count(rows, side, k) > 0
  {
    SelectDistinct(rows, _ => true, row => KeyOf(row, side))
  }

  /** The keys of `ks` that satisfy `keep`, in order: a `having` clause. */
  function Having(ks: seq<IdName>, keep: IdName -> bool): (r: seq<IdName>)
    ensures forall k :: k in r <==> k in ks && keep(k)
    ensures NoDup(ks) ==> NoDup(r)
  {
    if ks == [] then []
    else
      var pre, last := Having(ks[..|ks| - 1], keep), ks[|ks| - 1];
      assert ks == ks[..|ks| - 1] + [last];
      if keep(last) then pre + [last] else pre
  }

  // ------------------------------------------------------ entity tables

  lemma NoMemberIsEmpty<T>(s: seq<T>)
    ensures (forall x :: x !in s) ==> s == []
  {
    if s != [] {
      assert s[0] in s;
    }
  }

  /** Set extensionality for the empty set, stated so that a nonempty set yields an element. */
  lemma EmptyIfNoElement(s: set<int>)
    ensures (forall x :: x !in s) ==> s == {}
  {
    if forall x :: x !in s {
      assert s <= {};
    }
  }

  lemma {:induction false} MinExists(s: set<int>)
    requires s != {}
    ensures exists m :: m in s && forall y :: y in s ==> m <= y
    decreases |s|
  {
    EmptyIfNoElement(s);
    var x :| x in s;
    if !forall y :: y in s ==> x <= y {
      var y :| y in s && y < x;
      var rest := s - {x};
      assert y in rest;
      MinExists(rest);
      var m :| m in rest && forall z :: z in rest ==> m <= z;
      forall z | z in s ensures m <= z {
        if z != x { assert z in rest; }
      }
      assert m in s;
    }
  }

  /** The ids of an entity table in primary-key order (the order of a table scan). */
  function SortedIds(s: set<int>): seq<int>
    decreases |s|
  {
    if s == {} then []
    else
      MinExists(s);
      var m :| m in s && forall y :: y in s ==> m <= y;
      [m] + SortedIds(s - {m})
  }

  /** A scan lists every id of the table once, in strictly increasing order. */
  lemma {:induction false} SortedIdsOrdered(s: set<int>)
    ensures forall x :: x in SortedIds(s) <==> x in s
    ensures forall i, j :: 0 <= i < j < |SortedIds(s)| ==> SortedIds(s)[i] < SortedIds(s)[j]
    decreases |s|
  {
    if s != {} {
      var r := SortedIds(s);
      var m := r[0];
      assert m in s && forall y :: y in s ==> m <= y;
      var rest := SortedIds(s - {m});
      assert r == [m] + rest;
      SortedIdsOrdered(s - {m});
      forall j | 0 <= j < |rest| ensures m < rest[j] {
        assert rest[j] in s - {m};
      }
      assert forall i :: 1 <= i < |r| ==> r[i] == rest[i - 1];
    }
  }

  /** The rows of table `t` whose ids are listed in `ids` and that satisfy `keep`, in the order of `ids`. */
  function EntitiesWhere(t: map<int, string>, ids: seq<int>, keep: IdName -> bool): (r: seq<IdName>)
    requires forall id :: id in ids ==> id in t
    ensures forall p :: p in r <==> p.id in ids && p.id in t && p.name == t[p.id] && keep(p)
    ensures (forall i, j :: 0 <= i < j < |ids| ==> ids[i] < ids[j]) ==>
              forall i, j :: 0 <= i < j < |r| ==> r[i].id < r[j].id
  {
    if ids == [] then []
    else
      var id := ids[0];
      assert id in ids;
      var pre := EntitiesWhere(t, ids[1..], keep);
      var p := IdName(id, t[id]);
      assert ids == [ids[0]] + ids[1..];
      if keep(p) then [p] + pre else pre
  }

  /** The table `t` as (id, name) rows in id order, filtered by `keep`. */
  function Scan(t: map<int, string>, keep: IdName -> bool): (r: seq<IdName>)
    ensures forall p :: p in r <==> p.id in t && p.name == t[p.id] && keep(p)
    ensures NoDup(r)
  {
    SortedIdsOrdered(t.Keys);
    var r := EntitiesWhere(t, SortedIds(t.Keys), keep);
    assert forall i, j :: 0 <= i < j < |r| ==> r[i].id < r[j].id;
    r
  }

  // ------------------------------------------------------------ deletion

  /** The marks of `ms` that do not belong to a student of `ids`. */
  function MarksWithout(ms: seq<Mark>, ids: set<int>): (r: seq<Mark>)
    ensures forall m :: m in r <==> m in ms && m.studentId !in ids
    ensures |r| <= |ms|
  {
    if ms == [] then []
    else
      var pre, m := MarksWithout(ms[..|ms| - 1], ids), ms[|ms| - 1];
      assert ms == ms[..|ms| - 1] + [m];
      if m.studentId in ids then pre else pre + [m]
  }

  /** A mark appended to the table survives the deletion exactly when its student is not deleted. */
  lemma MarksWithoutAppend(ms: seq<Mark>, m: Mark, ids: set<int>)
    ensures MarksWithout(ms + [m], ids) == MarksWithout(ms, ids) + (if m.studentId in ids then [] else [m])
  {
    assert (ms + [m])[..|ms|] == ms;
  }

  /** Every surviving mark occurs as often as in the table; the marks of deleted students are gone. */
  lemma {:induction false} MarksWithoutMultiset(ms: seq<Mark>, ids: set<int>)
    ensures forall m :: multiset(MarksWithout(ms, ids))[m] == if m.studentId in ids then 0 else multiset(ms)[m]
  {
    if ms != [] {
      var pre, m := ms[..|ms| - 1], ms[|ms| - 1];
      assert ms == pre + [m];
      MarksWithoutMultiset(pre, ids);
      MarksWithoutAppend(pre, m, ids);
    }
  }

  /** Deleting the students `ids`; their marks go with them (ON DELETE CASCADE). */
  function DeleteStudents(db: Db, ids: set<int>): (r: Db)
    ensures r.students.Keys == db.students.Keys - ids
    ensures forall id :: id in r.students ==> r.students[id] == db.students[id]
    ensures r.subjects == db.subjects
    ensures Valid(db) ==> Valid(r)
  {
    Db(db.students - ids, db.subjects, MarksWithout(db.marks, ids))
  }

  // ------------------------------------------------------------- lemmas

  /** Any two groups are comparable by average. */
  lemma AvgAtLeastTotal(rows: seq<Row>, side: Side, a: IdName, b: IdName)
    ensures AvgAtLeast(rows, side, a, b) || AvgAtLeast(rows, side, b, a)
  {
  }

  lemma MulMonotone(x: int, y: int, c: int)
    requires x <= y && c >= 0
    ensures x * c <= y * c
  {
    assert y * c - x * c == (y - x) * c;
  }

  lemma MulStrict(x: int, y: int, c: int)
    requires x < y && c > 0
    ensures x * c < y * c
  {
    assert y * c - x * c == (y - x) * c;
  }

  /** ta/ca >= tb/cb >= tc/cc implies ta/ca >= tc/cc, stated without division. */
  lemma CrossTrans(ta: int, ca: int, tb: int, cb: int, tc: int, cc: int)
    requires ca > 0 && cb > 0 && cc > 0
    requires ta * cb >= tb * ca && tb * cc >= tc * cb
    ensures ta * cc >= tc * ca
  {
    MulMonotone(tb * ca, ta * cb, cc);
    MulMonotone(tc * cb, tb * cc, ca);
    assert (tb * ca) * cc == (tb * cc) * ca;
    assert (ta * cb) * cc == (ta * cc) * cb;
    assert (tc * cb) * ca == (tc * ca) * cb;
    if ta * cc < tc * ca {
      MulStrict(ta * cc, tc * ca, cb);
    }
  }

  /** Comparing averages by cross-multiplication is transitive over groups that have marks. */
  lemma AvgAtLeastTrans(rows: seq<Row>, side: Side, a: IdName, b: IdName, c: IdName)
    requires Count(rows, side, a) > 0 && Count(rows, side, b) > 0 && Count(rows, side, c) > 0
    requires AvgAtLeast(rows, side, a, b) && AvgAtLeast(rows, side, b, c)
    ensures AvgAtLeast(rows, side, a, c)
  {
    CrossTrans(Total(rows, side, a), Count(rows, side, a), Total(rows, side, b), Count(rows, side, b),
               Total(rows, side, c), Count(rows, side, c));
  }

  /** A group key of the joined table is an existing entity with its stored name. */
  lemma KeyIsEntity(db: Db, side: Side, k: IdName)
    requires Count(Join(db), side, k) > 0
    ensures side == StudentSide ==> k.id in db.students && db.students[k.id] == k.name
    ensures side == SubjectSide ==> k.id in db.subjects && db.subjects[k.id] == k.name
  {
    var row :| row in Join(db) && KeyOf(row, side) == k;
    var m :| m in db.marks && Joins(db.students, db.subjects, m) && row == RowOf(db.students, db.subjects, m);
  }

  /** Under referential integrity the join loses no mark. */
  lemma {:induction false} JoinLossless(students: map<int, string>, subjects: map<int, string>, ms: seq<Mark>)
    requires forall m :: m in ms ==> Joins(students, subjects, m)
    ensures |JoinMarks(students, subjects, ms)| == |ms|
    ensures SumRows(JoinMarks(students, subjects, ms)) == SumMarks(ms)
  {
    if ms != [] {
      var pre, m := ms[..|ms| - 1], ms[|ms| - 1];
      assert ms == pre + [m];
      JoinLossless(students, subjects, pre);
      var rows := JoinMarks(students, subjects, pre) + [RowOf(students, subjects, m)];
      assert rows[..|rows| - 1] == JoinMarks(students, subjects, pre);
    }
  }

  /** Appending a mark appends its joined row, if it joins. */
  lemma JoinAppend(students: map<int, string>, subjects: map<int, string>, ms: seq<Mark>, m: Mark)
    ensures JoinMarks(students, subjects, ms + [m]) ==
            JoinMarks(students, subjects, ms) + (if Joins(students, subjects, m) then [RowOf(students, subjects, m)] else [])
  {
    assert (ms + [m])[..|ms|] == ms;
  }

  lemma CountAppend(rows: seq<Row>, row: Row, side: Side, k: IdName)
    ensures Count(rows + [row], side, k) == Count(rows, side, k) + (if KeyOf(row, side) == k then 1 else 0)
    ensures Total(rows + [row], side, k) == Total(rows, side, k) + (if KeyOf(row, side) == k then row.mark else 0)
  {
    assert (rows + [row])[..|rows|] == rows;
  }

  /** A new student or subject has no marks yet, so the join does not change. */
  lemma {:induction false} JoinAddEntity(students: map<int, string>, subjects: map<int, string>, ms: seq<Mark>,
                                         side: Side, id: int, name: string)
    requires forall m :: m in ms ==> Joins(students, subjects, m)
    requires side == StudentSide ==> id !in students
    requires side == SubjectSide ==> id !in subjects
    ensures side == StudentSide ==> JoinMarks(students[id := name], subjects, ms) == JoinMarks(students, subjects, ms)
    ensures side == SubjectSide ==> JoinMarks(students, subjects[id := name], ms) == JoinMarks(students, subjects, ms)
  {
    if ms != [] {
      var pre, m := ms[..|ms| - 1], ms[|ms| - 1];
      assert ms == pre + [m];
      JoinAddEntity(students, subjects, pre, side, id, name);
    }
  }

  /** Deleting students leaves the groups of every other student exactly as they were. */
  lemma {:induction false} DeleteKeepsOtherGroups(students: map<int, string>, subjects: map<int, string>,
                                                  ms: seq<Mark>, ids: set<int>, k: IdName)
    requires k.id !in ids
    ensures Count(JoinMarks(students - ids, subjects, MarksWithout(ms, ids)), StudentSide, k) ==
            Count(JoinMarks(students, subjects, ms), StudentSide, k)
    ensures Total(JoinMarks(students - ids, subjects, MarksWithout(ms, ids)), StudentSide, k) ==
            Total(JoinMarks(students, subjects, ms), StudentSide, k)
  {
    if ms != [] {
      var pre, m := ms[..|ms| - 1], ms[|ms| - 1];
      assert ms == pre + [m];
      DeleteKeepsOtherGroups(students, subjects, pre, ids, k);
      var before := JoinMarks(students, subjects, pre);
      var after := JoinMarks(students - ids, subjects, MarksWithout(pre, ids));
      JoinAppend(students, subjects, pre, m);
      if Joins(students, subjects, m) {
        CountAppend(before, RowOf(students, subjects, m), StudentSide, k);
      }
      if m.studentId !in ids {
        assert MarksWithout(ms, ids) == MarksWithout(pre, ids) + [m];
        JoinAppend(students - ids, subjects, MarksWithout(pre, ids), m);
        if Joins(students, subjects, m) {
          assert RowOf(students - ids, subjects, m) == RowOf(students, subjects, m);
          CountAppend(after, RowOf(students, subjects, m), StudentSide, k);
        }
      } else {
        assert MarksWithout(ms, ids) == MarksWithout(pre, ids);
      }
    }
  }

  /** Deleting in two steps is deleting the union. */
  lemma {:induction false} MarksWithoutTwice(ms: seq<Mark>, a: set<int>, b: set<int>)
    ensures MarksWithout(MarksWithout(ms, a), b) == MarksWithout(ms, a + b)
  {
    if ms != [] {
      var pre, m := ms[..|ms| - 1], ms[|ms| - 1];
      assert ms == pre + [m];
      MarksWithoutTwice(pre, a, b);
      if m.studentId !in a {
        var once := MarksWithout(pre, a) + [m];
        assert once[..|once| - 1] == MarksWithout(pre, a);
      }
    }
  }

  lemma DeleteStudentsTwice(db: Db, a: set<int>, b: set<int>)
    ensures DeleteStudents(DeleteStudents(db, a), b) == DeleteStudents(db, a + b)
  {
    MarksWithoutTwice(db.marks, a, b);
    assert db.students - a - b == db.students - (a + b);
  }

  /** Deleting no students changes nothing. */
  lemma {:induction false} MarksWithoutNone(ms: seq<Mark>)
    ensures MarksWithout(ms, {}) == ms
  {
    if ms != [] {
      MarksWithoutNone(ms[..|ms| - 1]);
      assert ms == ms[..|ms| - 1] + [ms[|ms| - 1]];
    }
  }

  lemma DeleteNoStudents(db: Db)
    ensures DeleteStudents(db, {}) == db
  {
    MarksWithoutNone(db.marks);
    assert db.students - {} == db.students;
  }
}
