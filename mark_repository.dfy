/**
 * The mark queries: each is a select / group by / having / order by over the
 * joined marks table `Join(db)`.  A group exists only for an entity that has
 * at least one joined mark.  Results whose order SQL leaves open come out in
 * order of first appearance in the marks table; no contract promises it.
 */
module MarkRepository {
  import opened Records

  // ------------------------------------------- marks of a (name, subject name) pair

  predicate OnPair(row: Row, name: string, subjectName: string)
  {
    row.student.name == name && row.subject.name == subjectName
  }

  /** The joined rows of students called `name` on subjects called `subjectName`. */
  function RowsOnPair(db: Db, name: string, subjectName: string): (r: seq<Row>)
    ensures forall row :: multiset(r)[row] == if OnPair(row, name, subjectName) then multiset(Join(db))[row] else 0
  {
    Filter(Join(db), (row: Row) => OnPair(row, name, subjectName))
  }

  /**
   * The derived query findByStudentNameAndSubjectSubjectName: the marks of every
   * student called `name` on every subject called `subjectName`, one value per mark.
   */
  function FindByStudentNameAndSubjectName(db: Db, name: string, subjectName: string): (r: seq<int>)
    ensures |r| <= |db.marks|
    ensures forall v :: v in r <==>
              exists row :: row in Join(db) && OnPair(row, name, subjectName) && row.mark == v
    ensures |r| == |RowsOnPair(db, name, subjectName)|
    ensures forall i :: 0 <= i < |r| ==> r[i] == RowsOnPair(db, name, subjectName)[i].mark
  {
    var rows := RowsOnPair(db, name, subjectName);
    var r := MarksOf(rows);
    assert forall v :: v in r <==> exists row :: row in Join(db) && OnPair(row, name, subjectName) && row.mark == v by {
      forall v ensures v in r <==> exists row :: row in Join(db) && OnPair(row, name, subjectName) && row.mark == v {
        if v in r {
          var i :| 0 <= i < |r| && r[i] == v;
          assert rows[i] in rows;
          assert multiset(rows)[rows[i]] > 0;
        }
        if exists row :: row in Join(db) && OnPair(row, name, subjectName) && row.mark == v {
          var row :| row in Join(db) && OnPair(row, name, subjectName) && row.mark == v;
          assert multiset(rows)[row] > 0;
          var i :| 0 <= i < |rows| && rows[i] == row;
          assert r[i] == v;
        }
      }
    }
    r
  }

  /** A new mark shows up at the end of the lookup exactly when it is on the pair. */
  lemma LookupAfterAddMark(db: Db, m: Mark, name: string, subjectName: string)
    requires Joins(db.students, db.subjects, m)
    ensures var row := RowOf(db.students, db.subjects, m);
            FindByStudentNameAndSubjectName(db.(marks := db.marks + [m]), name, subjectName) ==
            FindByStudentNameAndSubjectName(db, name, subjectName) + (if OnPair(row, name, subjectName) then [m.mark] else [])
  {
    var row := RowOf(db.students, db.subjects, m);
    JoinAppend(db.students, db.subjects, db.marks, m);
    FilterAppend(Join(db), row, (x: Row) => OnPair(x, name, subjectName));
    var before, after := RowsOnPair(db, name, subjectName), RowsOnPair(db.(marks := db.marks + [m]), name, subjectName);
    assert after == before + (if OnPair(row, name, subjectName) then [row] else []);
    if OnPair(row, name, subjectName) {
      MarksOfAppend(before, row);
    } else {
      assert after == before;
    }
  }

  // ---------------------------------------- distinct names with a high enough mark

  /** findDistinctBySubjectSubjectNameAndMarkGreaterThanEqual: each qualifying student name once. */
  function FindDistinctNamesMarkAtLeast(db: Db, subjectName: string, mark: int): (r: seq<string>)
    ensures NoDup(r)
    ensures forall n :: n in r <==>
              exists row :: row in Join(db) && row.subject.name == subjectName && row.mark >= mark && row.student.name == n
  {
    SelectDistinct(Join(db), (row: Row) => row.subject.name == subjectName && row.mark >= mark, (row: Row) => row.student.name)
  }

  // ----------------------------------------------------------------- good students

  /** Student `p` has marks and avg(p's marks) >= avg(all marks). */
  predicate IsGoodStudent(db: Db, p: IdName)
  {
    var rows := Join(db);
    Count(rows, StudentSide, p) > 0 &&
    Total(rows, StudentSide, p) * |db.marks| >= SumMarks(db.marks) * Count(rows, StudentSide, p)
  }

  /** findGoodStudents: the students whose average is at least the college average. */
  function FindGoodStudents(db: Db): (r: seq<IdName>)
    ensures NoDup(r)
    ensures forall p :: p in r <==> IsGoodStudent(db, p)
    ensures forall p :: p in r ==> p.id in db.students && db.students[p.id] == p.name
  {
    var r := Having(Keys(Join(db), StudentSide), (p: IdName) => IsGoodStudent(db, p));
    assert forall p :: p in r ==> p.id in db.students && db.students[p.id] == p.name by {
      forall p | p in r ensures p.id in db.students && db.students[p.id] == p.name {
        KeyIsEntity(db, StudentSide, p);
      }
    }
    r
  }

  // ------------------------------------------------- subjects above an average

  /** findSubjectsAvgMarkGreater: the subjects with marks whose average is strictly above `avgMark`. */
  function FindSubjectsAvgMarkGreater(db: Db, avgMark: int): (r: seq<IdName>)
    ensures NoDup(r)
    ensures forall p :: p in r <==>
              Count(Join(db), SubjectSide, p) > 0 &&
              Total(Join(db), SubjectSide, p) > avgMark * Count(Join(db), SubjectSide, p)
  {
    var rows := Join(db);
    Having(Keys(rows, SubjectSide), (p: IdName) => Total(rows, SubjectSide, p) > avgMark * Count(rows, SubjectSide, p))
  }

  // --------------------------------------------------------- order by avg desc

  /** Non-increasing average from left to right. */
  predicate SortedByAvg(rows: seq<Row>, side: Side, s: seq<IdName>)
  {
    forall i, j :: 0 <= i < j < |s| ==> AvgAtLeast(rows, side, s[i], s[j])
  }

  /** Insert `k` before the first key whose average does not exceed its own. */
  function InsertByAvg(rows: seq<Row>, side: Side, k: IdName, s: seq<IdName>): (r: seq<IdName>)
    ensures multiset(r) == multiset(s) + multiset{k}
  {
    if s == [] then [k]
    else if AvgAtLeast(rows, side, k, s[0]) then [k] + s
    else
      assert s == [s[0]] + s[1..];
      [s[0]] + InsertByAvg(rows, side, k, s[1..])
  }

  /** A stable insertion sort by average, highest first. */
  function SortByAvg(rows: seq<Row>, side: Side, s: seq<IdName>): (r: seq<IdName>)
    ensures multiset(r) == multiset(s)
  {
    if s == [] then []
    else
      assert s == [s[0]] + s[1..];
      InsertByAvg(rows, side, s[0], SortByAvg(rows, side, s[1..]))
  }

  lemma HeadNotInTail(s: seq<IdName>)
    requires NoDup(s) && s != []
    ensures s[0] !in s[1..] && NoDup(s[1..])
  {
    forall i | 0 <= i < |s| - 1 ensures s[1..][i] != s[0] {
      assert s[1..][i] == s[i + 1];
    }
  }

  /** A key at least as good as the head of a sorted list may go in front of it. */
  lemma {:induction false} ConsSorted(rows: seq<Row>, side: Side, k: IdName, s: seq<IdName>)
    requires Count(rows, side, k) > 0 && forall x :: x in s ==> Count(rows, side, x) > 0
    requires SortedByAvg(rows, side, s) && s != [] && AvgAtLeast(rows, side, k, s[0])
    ensures SortedByAvg(rows, side, [k] + s)
  {
    var r := [k] + s;
    forall i, j | 0 <= i < j < |r| ensures AvgAtLeast(rows, side, r[i], r[j]) {
      if i == 0 && j > 1 {
        assert s[0] in s && s[j - 1] in s;
        assert AvgAtLeast(rows, side, s[0], s[j - 1]);
        AvgAtLeastTrans(rows, side, k, s[0], s[j - 1]);
      } else if i > 0 {
        assert r[i] == s[i - 1] && r[j] == s[j - 1];
      }
    }
  }

  /** A head that is at least as good as every other element keeps the list sorted. */
  lemma {:induction false} HeadSorted(rows: seq<Row>, side: Side, x: IdName, rest: seq<IdName>)
    requires SortedByAvg(rows, side, rest)
    requires forall y :: y in rest ==> AvgAtLeast(rows, side, x, y)
    ensures SortedByAvg(rows, side, [x] + rest)
  {
    var r := [x] + rest;
    forall i, j | 0 <= i < j < |r| ensures AvgAtLeast(rows, side, r[i], r[j]) {
      if i == 0 {
        assert r[j] == rest[j - 1] && rest[j - 1] in rest;
      } else {
        assert r[i] == rest[i - 1] && r[j] == rest[j - 1];
      }
    }
  }

  lemma TailSorted(rows: seq<Row>, side: Side, s: seq<IdName>)
    requires s != [] && SortedByAvg(rows, side, s)
    ensures SortedByAvg(rows, side, s[1..])
  {
    var tail := s[1..];
    forall i, j | 0 <= i < j < |tail| ensures AvgAtLeast(rows, side, tail[i], tail[j]) {
      assert tail[i] == s[i + 1] && tail[j] == s[j + 1];
    }
  }

  lemma ConsNoDup(x: IdName, rest: seq<IdName>)
    requires x !in rest && NoDup(rest)
    ensures NoDup([x] + rest)
  {
    var r := [x] + rest;
    forall i, j | 0 <= i < j < |r| ensures r[i] != r[j] {
      if i == 0 { assert r[j] == rest[j - 1] && rest[j - 1] in rest; }
      else { assert r[i] == rest[i - 1] && r[j] == rest[j - 1]; }
    }
  }

  /** When `k` goes behind the head, the head is at least as good as everything after it. */
  lemma {:induction false} HeadBeatsRest(rows: seq<Row>, side: Side, k: IdName, s: seq<IdName>)
    requires s != [] && SortedByAvg(rows, side, s) && !AvgAtLeast(rows, side, k, s[0])
    ensures forall y :: y in InsertByAvg(rows, side, k, s[1..]) ==> AvgAtLeast(rows, side, s[0], y)
  {
    var tail := s[1..];
    var rest := InsertByAvg(rows, side, k, tail);
    AvgAtLeastTotal(rows, side, k, s[0]);
    forall y | y in rest ensures AvgAtLeast(rows, side, s[0], y) {
      assert y in multiset(rest);
      if y != k {
        assert y in tail;
        var i :| 0 <= i < |tail| && tail[i] == y;
        assert s[i + 1] == y;
      }
    }
  }

  lemma {:induction false} InsertByAvgSorted(rows: seq<Row>, side: Side, k: IdName, s: seq<IdName>)
    requires Count(rows, side, k) > 0 && forall x :: x in s ==> Count(rows, side, x) > 0
    requires SortedByAvg(rows, side, s) && NoDup(s) && k !in s
    ensures SortedByAvg(rows, side, InsertByAvg(rows, side, k, s))
    ensures NoDup(InsertByAvg(rows, side, k, s))
  {
    if s == [] {
    } else if AvgAtLeast(rows, side, k, s[0]) {
      ConsSorted(rows, side, k, s);
    } else {
      var tail := s[1..];
      assert forall x :: x in tail ==> x in s;
      TailSorted(rows, side, s);
      HeadNotInTail(s);
      InsertByAvgSorted(rows, side, k, tail);
      var rest := InsertByAvg(rows, side, k, tail);
      HeadBeatsRest(rows, side, k, s);
      HeadSorted(rows, side, s[0], rest);
      assert s[0] != k && s[0] !in multiset(tail);
      assert s[0] !in multiset(rest);
      assert InsertByAvg(rows, side, k, s) == [s[0]] + rest;
      ConsNoDup(s[0], rest);
    }
  }

  lemma {:induction false} SortByAvgSorted(rows: seq<Row>, side: Side, s: seq<IdName>)
    requires forall x :: x in s ==> Count(rows, side, x) > 0
    requires NoDup(s)
    ensures SortedByAvg(rows, side, SortByAvg(rows, side, s))
    ensures NoDup(SortByAvg(rows, side, s))
  {
    if s != [] {
      var tail := s[1..];
      assert forall x :: x in tail ==> x in s;
      SortByAvgSorted(rows, side, tail);
      var sorted := SortByAvg(rows, side, tail);
      assert s[0] in s;
      HeadNotInTail(s);
      assert s[0] !in multiset(tail);
      assert s[0] !in multiset(sorted);
      forall x | x in sorted ensures Count(rows, side, x) > 0 {
        assert x in multiset(sorted);
        assert x in tail;
      }
      InsertByAvgSorted(rows, side, s[0], sorted);
    }
  }

  /** The first `n` keys of a sorted, duplicate-free list of all the groups. */
  lemma TopOfSorted(rows: seq<Row>, side: Side, sorted: seq<IdName>, n: nat)
    requires SortedByAvg(rows, side, sorted) && NoDup(sorted)
    requires forall k :: k in sorted <==> Count(rows, side, k) > 0
    ensures var r := if n < |sorted| then sorted[..n] else sorted;
            && SortedByAvg(rows, side, r) && NoDup(r)
            && (forall k :: k in r ==> Count(rows, side, k) > 0)
            && forall p, q :: q in r && Count(rows, side, p) > 0 && p !in r ==> AvgAtLeast(rows, side, q, p)
  {
    var r := if n < |sorted| then sorted[..n] else sorted;
    forall p, q | q in r && Count(rows, side, p) > 0 && p !in r
      ensures AvgAtLeast(rows, side, q, p)
    {
      var j :| 0 <= j < |sorted| && sorted[j] == p;
      var i :| 0 <= i < |r| && r[i] == q;
      assert sorted[i] == q;
    }
  }

  /** `group by key order by avg(mark) desc limit n`. */
  function Best(rows: seq<Row>, side: Side, n: nat): (r: seq<IdName>)
    ensures |r| == Min(n, |Keys(rows, side)|)
    ensures NoDup(r)
    ensures forall k :: k in r ==> Count(rows, side, k) > 0
    ensures SortedByAvg(rows, side, r)
    ensures forall p, q :: q in r && Count(rows, side, p) > 0 && p !in r ==> AvgAtLeast(rows, side, q, p)
  {
    var keys := Keys(rows, side);
    var sorted := SortByAvg(rows, side, keys);
    SortByAvgSorted(rows, side, keys);
    assert |sorted| == |multiset(sorted)| == |multiset(keys)| == |keys|;
    assert forall k :: k in sorted <==> k in keys by {
      forall k ensures k in sorted <==> k in keys {
        assert k in sorted <==> k in multiset(sorted);
        assert k in keys <==> k in multiset(keys);
      }
    }
    TopOfSorted(rows, side, sorted, n);
    if n < |sorted| then sorted[..n] else sorted
  }

  /** findBestStudents: the `n` students with the highest averages, best first (ties in no promised order). */
  function FindBestStudents(db: Db, n: nat): (r: seq<IdName>)
    ensures |r| <= n && NoDup(r)
    ensures forall p :: p in r ==> Count(Join(db), StudentSide, p) > 0
    ensures SortedByAvg(Join(db), StudentSide, r)
    ensures forall p, q :: q in r && Count(Join(db), StudentSide, p) > 0 && p !in r ==>
              AvgAtLeast(Join(db), StudentSide, q, p)
    ensures |r| == Min(n, |Keys(Join(db), StudentSide)|)
  {
    Best(Join(db), StudentSide, n)
  }

  /** The joined rows on subjects called `subjectName`. */
  function RowsOnSubject(db: Db, subjectName: string): (r: seq<Row>)
    ensures forall row :: row in r <==> row in Join(db) && row.subject.name == subjectName
    ensures forall row :: multiset(r)[row] == if row.subject.name == subjectName then multiset(Join(db))[row] else 0
  {
    Filter(Join(db), (row: Row) => row.subject.name == subjectName)
  }

  /** findBestStudentsSubject: as FindBestStudents, over the marks on subjects called `subjectName` only. */
  function FindBestStudentsSubject(db: Db, n: nat, subjectName: string): (r: seq<IdName>)
    ensures |r| <= n && NoDup(r)
    ensures forall p :: p in r ==> Count(RowsOnSubject(db, subjectName), StudentSide, p) > 0
    ensures SortedByAvg(RowsOnSubject(db, subjectName), StudentSide, r)
    ensures forall p, q :: q in r && Count(RowsOnSubject(db, subjectName), StudentSide, p) > 0 && p !in r ==>
              AvgAtLeast(RowsOnSubject(db, subjectName), StudentSide, q, p)
    ensures |r| == Min(n, |Keys(RowsOnSubject(db, subjectName), StudentSide)|)
  {
    Best(RowsOnSubject(db, subjectName), StudentSide, n)
  }

  // ---------------------------------------------- all marks at least a threshold

  /** No mark of student `studentId` on subject `subjectId` is below `mark` (the `not exists` subquery). */
  predicate NoMarkBelow(db: Db, studentId: int, subjectId: int, mark: int)
  {
    forall m :: m in db.marks && m.studentId == studentId && m.subjectId == subjectId ==> m.mark >= mark
  }

  predicate AllMarksAtLeast(db: Db, row: Row, mark: int, subject: string)
  {
    row.subject.name == subject && NoMarkBelow(db, row.student.id, row.subject.id, mark)
  }

  /**
   * findStudentsAllMarksGreaterEqual: the students having a mark on a subject called
   * `subject` such that none of their marks on that same subject is below `mark`.
   */
  function FindStudentsAllMarksGreaterEqual(db: Db, mark: int, subject: string): (r: seq<IdName>)
    ensures NoDup(r)
    ensures forall p :: p in r <==> exists row :: row in Join(db) && row.student == p && AllMarksAtLeast(db, row, mark, subject)
  {
    SelectDistinct(Join(db), (row: Row) => AllMarksAtLeast(db, row, mark, subject), (row: Row) => row.student)
  }

  /**
   * With a single subject `s` of that name: exactly the existing students that have
   * at least one mark on `s` and no mark on `s` below `mark`.  A student without
   * marks on `s` is not returned.
   */
  lemma AllMarksAtLeastOnSubject(db: Db, mark: int, s: IdName, p: IdName)
    requires Valid(db)
    requires s.id in db.subjects && db.subjects[s.id] == s.name
    requires forall id :: id in db.subjects && db.subjects[id] == s.name ==> id == s.id
    ensures p in FindStudentsAllMarksGreaterEqual(db, mark, s.name) <==>
            && p.id in db.students && db.students[p.id] == p.name
            && (exists m :: m in db.marks && m.studentId == p.id && m.subjectId == s.id)
            && NoMarkBelow(db, p.id, s.id, mark)
  {
    var r := FindStudentsAllMarksGreaterEqual(db, mark, s.name);
    if p in r {
      var row :| row in Join(db) && row.student == p && AllMarksAtLeast(db, row, mark, s.name);
      var m :| m in db.marks && Joins(db.students, db.subjects, m) && row == RowOf(db.students, db.subjects, m);
      assert m.subjectId == s.id;
    }
    if && p.id in db.students && db.students[p.id] == p.name
       && (exists m :: m in db.marks && m.studentId == p.id && m.subjectId == s.id)
       && NoMarkBelow(db, p.id, s.id, mark)
    {
      var m :| m in db.marks && m.studentId == p.id && m.subjectId == s.id;
      var row := RowOf(db.students, db.subjects, m);
      assert row in Join(db) && row.student == p && AllMarksAtLeast(db, row, mark, s.name);
    }
  }

  // --------------------------------------------------- subject with greatest avg

  /** findSubjectWithGreatestAvgMark: `order by avg desc limit 1`; no row when there are no marks. */
  function FindSubjectWithGreatestAvgMark(db: Db): (r: Option<IdName>)
    ensures r.None? <==> |Join(db)| == 0
    ensures r.Some? ==> Count(Join(db), SubjectSide, r.value) > 0
    ensures r.Some? ==> forall q :: Count(Join(db), SubjectSide, q) > 0 ==> AvgAtLeast(Join(db), SubjectSide, r.value, q)
  {
    var rows := Join(db);
    var top := Best(rows, SubjectSide, 1);
    assert |rows| > 0 ==> rows[0].subject in Keys(rows, SubjectSide) by {
      if |rows| > 0 {
        assert rows[0] in rows && KeyOf(rows[0], SubjectSide) == rows[0].subject;
      }
    }
    if top == [] then None else Some(top[0])
  }

  // -------------------------------------------------------- maximal mark count

  /** max(count) over the groups `ks`; 0 for no groups. */
  function MaxCount(rows: seq<Row>, side: Side, ks: seq<IdName>): (c: nat)
    ensures forall k :: k in ks ==> Count(rows, side, k) <= c
    ensures ks != [] ==> exists k :: k in ks && Count(rows, side, k) == c
  {
    if ks == [] then 0
    else
      var rest := MaxCount(rows, side, ks[1..]);
      assert ks == [ks[0]] + ks[1..];
      if Count(rows, side, ks[0]) >= rest then Count(rows, side, ks[0]) else rest
  }

  /** Group `p` has marks and no group has more. */
  ghost predicate HasMaxCount(rows: seq<Row>, side: Side, p: IdName)
  {
    Count(rows, side, p) > 0 && forall q :: Count(rows, side, q) <= Count(rows, side, p)
  }

  /** Keeping the groups whose count equals the maximum keeps exactly the students no one outnumbers. */
  lemma {:induction false} MaxCountGroups(rows: seq<Row>, side: Side, p: IdName)
    ensures var keys := Keys(rows, side);
            (p in keys && Count(rows, side, p) == MaxCount(rows, side, keys)) <==>
            HasMaxCount(rows, side, p)
  {
    var keys := Keys(rows, side);
    var max := MaxCount(rows, side, keys);
    if p in keys && Count(rows, side, p) == max {
      forall q ensures Count(rows, side, q) <= Count(rows, side, p) {
        if Count(rows, side, q) > 0 { assert q in keys; }
      }
    }
    if Count(rows, side, p) > 0 && forall q :: Count(rows, side, q) <= Count(rows, side, p) {
      assert p in keys;
      var k :| k in keys && Count(rows, side, k) == max;
    }
  }

  /** findStudentsMaxMarks: the students whose mark count is the largest of all students. */
  function FindStudentsMaxMarks(db: Db): (r: seq<IdName>)
    ensures NoDup(r)
    ensures forall p :: p in r <==> HasMaxCount(Join(db), StudentSide, p)
  {
    var rows := Join(db);
    var keys := Keys(rows, StudentSide);
    var max := MaxCount(rows, StudentSide, keys);
    var r := Having(keys, (p: IdName) => Count(rows, StudentSide, p) == max);
    assert forall p :: p in r <==> p in keys && Count(rows, StudentSide, p) == max;
    assert forall p :: p in r <==> HasMaxCount(rows, StudentSide, p) by {
      forall p ensures p in r <==> HasMaxCount(rows, StudentSide, p) {
        MaxCountGroups(rows, StudentSide, p);
      }
    }
    r
  }
}
