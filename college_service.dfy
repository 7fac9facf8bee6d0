/**
 * The college service: existence-checked inserts, the two bulk deletions, and
 * the read operations, which translate query results into transport records.
 * The store is one object whose three tables the write operations update; each
 * service call is one atomic step.
 */
module CollegeService {
  import opened Records
  import MarkRepository
  import SubjectRepository
  import StudentRepository

  /** Transport records. */
  datatype Student = Student(id: int, name: string)
  datatype Subject = Subject(id: int, subjectName: string)
  datatype MarkDto = MarkDto(stid: int, suid: int, mark: int)

  /** The failures the service reports (the source throws them). */
  datatype Error = StudentExists(id: int) | SubjectExists(id: int) | StudentMissing(id: int) | SubjectMissing(id: int)

  datatype Outcome = Done | Failed(error: Error)

  function StudentKey(s: Student): IdName
  {
    IdName(s.id, s.name)
  }

  function SubjectKey(s: Subject): IdName
  {
    IdName(s.id, s.subjectName)
  }

  /** toStudentsFromProj: one student per projection, same ids and names, same order. */
  function ToStudents(ps: seq<IdName>): (r: seq<Student>)
    ensures |r| == |ps|
    ensures forall i :: 0 <= i < |ps| ==> StudentKey(r[i]) == ps[i]
    ensures forall s :: s in r <==> StudentKey(s) in ps
    ensures NoDup(ps) ==> NoDup(r)
  {
    var r := seq(|ps|, i requires 0 <= i < |ps| => Student(ps[i].id, ps[i].name));
    assert forall s :: s in r <==> StudentKey(s) in ps by {
      forall s ensures s in r <==> StudentKey(s) in ps {
        if StudentKey(s) in ps {
          var i :| 0 <= i < |ps| && ps[i] == StudentKey(s);
          assert r[i] == s;
        }
      }
    }
    r
  }

  /** The same translation for subjects. */
  function ToSubjects(ps: seq<IdName>): (r: seq<Subject>)
    ensures |r| == |ps|
    ensures forall i :: 0 <= i < |ps| ==> SubjectKey(r[i]) == ps[i]
    ensures forall s :: s in r <==> SubjectKey(s) in ps
    ensures NoDup(ps) ==> NoDup(r)
  {
    var r := seq(|ps|, i requires 0 <= i < |ps| => Subject(ps[i].id, ps[i].name));
    assert forall s :: s in r <==> SubjectKey(s) in ps by {
      forall s ensures s in r <==> SubjectKey(s) in ps {
        if SubjectKey(s) in ps {
          var i :| 0 <= i < |ps| && ps[i] == SubjectKey(s);
          assert r[i] == s;
        }
      }
    }
    r
  }

  class College {
    var students: map<int, string>
    var subjects: map<int, string>
    var marks: seq<Mark>

    /** The three tables as one value, for the queries. */
    function State(): Db
      reads this
    {
      Db(students, subjects, marks)
    }

    /** The store's invariant: every mark refers to an existing student and subject. */
    ghost predicate Valid()
      reads this
    {
      Records.Valid(State())
    }

    constructor ()
      ensures Valid()
      ensures students == map[] && subjects == map[] && marks == []
    {
      students, subjects, marks := map[], map[], [];
    }

    // ------------------------------------------------------------------ writes

    /** addStudent: fails on an id already present; otherwise stores exactly this student. */
    method AddStudent(student: Student) returns (outcome: Outcome)
      requires Valid()
      modifies this
      ensures Valid()
      ensures student.id in old(students) ==>
                outcome == Failed(StudentExists(student.id)) && students == old(students)
      ensures student.id !in old(students) ==>
                outcome == Done && students == old(students)[student.id := student.name]
      ensures subjects == old(subjects) && marks == old(marks)
    {
      if student.id in students {
        return Failed(StudentExists(student.id));
      }
      students := students[student.id := student.name];
      outcome := Done;
    }

    /** addSubject: fails on an id already present; otherwise stores exactly this subject. */
    method AddSubject(subject: Subject) returns (outcome: Outcome)
      requires Valid()
      modifies this
      ensures Valid()
      ensures subject.id in old(subjects) ==>
                outcome == Failed(SubjectExists(subject.id)) && subjects == old(subjects)
      ensures subject.id !in old(subjects) ==>
                outcome == Done && subjects == old(subjects)[subject.id := subject.subjectName]
      ensures students == old(students) && marks == old(marks)
    {
      if subject.id in subjects {
        return Failed(SubjectExists(subject.id));
      }
      subjects := subjects[subject.id := subject.subjectName];
      outcome := Done;
    }

    /**
     * addMark: the student is looked up first, then the subject; on success exactly
     * one mark referring to both is appended.
     */
    method AddMark(mark: MarkDto) returns (outcome: Outcome)
      requires Valid()
      modifies this
      ensures Valid()
      ensures mark.stid !in old(students) ==>
                outcome == Failed(StudentMissing(mark.stid)) && marks == old(marks)
      ensures mark.stid in old(students) && mark.suid !in old(subjects) ==>
                outcome == Failed(SubjectMissing(mark.suid)) && marks == old(marks)
      ensures mark.stid in old(students) && mark.suid in old(subjects) ==>
                outcome == Done && marks == old(marks) + [Mark(mark.mark, mark.stid, mark.suid)]
      ensures students == old(students) && subjects == old(subjects)
    {
      if mark.stid !in students {
        return Failed(StudentMissing(mark.stid));
      }
      if mark.suid !in subjects {
        return Failed(SubjectMissing(mark.suid));
      }
      marks := marks + [Mark(mark.mark, mark.stid, mark.suid)];
      outcome := Done;
    }

    /** The repository's delete of one student record; its marks go with it. */
    method Delete(student: IdName)
      requires Valid()
      modifies this
      ensures Valid()
      ensures State() == DeleteStudents(old(State()), {student.id})
    {
      students := students - {student.id};
      marks := MarksWithout(marks, {student.id});
    }

    /** Deletes the students of `ps` one at a time, in order. */
    method DeleteEach(ps: seq<IdName>)
      requires Valid()
      modifies this
      ensures Valid()
      ensures State() == DeleteStudents(old(State()), StudentRepository.IdsOf(ps))
    {
      ghost var before := State();
      DeleteNoStudents(before);
      assert StudentRepository.IdsOf(ps[..0]) == {};
      var i := 0;
      while i < |ps|
        invariant 0 <= i <= |ps|
        invariant Valid()
        invariant State() == DeleteStudents(before, StudentRepository.IdsOf(ps[..i]))
      {
        DeleteStudentsTwice(before, StudentRepository.IdsOf(ps[..i]), {ps[i].id});
        StudentRepository.IdsOfPrefix(ps, i);
        Delete(ps[i]);
        i := i + 1;
      }
      assert ps[..|ps|] == ps;
    }

    /**
     * deleteStudentsMarksCountLess: reads the students with fewer than `count`
     * marks, deletes them one by one, and returns that snapshot.
     */
    method DeleteStudentsMarksCountLess(count: int) returns (deleted: seq<Student>)
      requires Valid()
      modifies this
      ensures Valid()
      ensures deleted == ToStudents(old(StudentRepository.GetStudentsCountLess(State(), count)))
      ensures State() == DeleteStudents(old(State()), StudentRepository.IdsOf(old(StudentRepository.GetStudentsCountLess(State(), count))))
    {
      var snapshot := StudentRepository.GetStudentsCountLess(State(), count);
      DeleteEach(snapshot);
      deleted := ToStudents(snapshot);
    }

    /** deleteStudentsAvgMarkLess: one bulk delete of the students below `avgMark` or without marks. */
    method DeleteStudentsAvgMarkLess(avgMark: int)
      requires Valid()
      modifies this
      ensures Valid()
      ensures State() == DeleteStudents(old(State()), StudentRepository.AvgMarkLessIds(old(State()), avgMark))
    {
      var ids := StudentRepository.AvgMarkLessIds(State(), avgMark);
      students := students - ids;
      marks := MarksWithout(marks, ids);
    }

    // ------------------------------------------------------------------- reads

    /**
     * getStudentMarksSubject: the values of the stored marks of every student
     * called `name` on every subject called `subjectName`, one entry per mark.
     */
    function GetStudentMarksSubject(name: string, subjectName: string): (r: seq<int>)
      reads this
      requires Valid()
      ensures r == MarkRepository.FindByStudentNameAndSubjectName(State(), name, subjectName)
      ensures |r| == |MarkRepository.RowsOnPair(State(), name, subjectName)|
      ensures forall i :: 0 <= i < |r| ==> r[i] == MarkRepository.RowsOnPair(State(), name, subjectName)[i].mark
      ensures forall v :: v in r <==>
                exists m :: m in marks && students[m.studentId] == name && subjects[m.subjectId] == subjectName && m.mark == v
    {
      var db := State();
      var r := MarkRepository.FindByStudentNameAndSubjectName(db, name, subjectName);
      assert forall v :: v in r <==>
               exists m :: m in marks && students[m.studentId] == name && subjects[m.subjectId] == subjectName && m.mark == v by {
        forall v ensures v in r <==>
            exists m :: m in marks && students[m.studentId] == name && subjects[m.subjectId] == subjectName && m.mark == v
        {
          if exists m :: m in marks && students[m.studentId] == name && subjects[m.subjectId] == subjectName && m.mark == v {
            var m :| m in marks && students[m.studentId] == name && subjects[m.subjectId] == subjectName && m.mark == v;
            assert RowOf(students, subjects, m) in Join(db);
          }
        }
      }
      r
    }

    /** goodCollegeStudents: exactly the students whose average is at least the college average. */
    function GoodCollegeStudents(): (r: seq<Student>)
      reads this
      ensures NoDup(r)
      ensures forall s :: s in r <==> MarkRepository.IsGoodStudent(State(), StudentKey(s))
      ensures forall s :: s in r ==> s.id in students && students[s.id] == s.name
    {
      ToStudents(MarkRepository.FindGoodStudents(State()))
    }

    /** bestStudents: at most `n` students, best average first, none left out that beats one kept. */
    function BestStudents(n: nat): (r: seq<Student>)
      reads this
      ensures |r| == Min(n, |Keys(Join(State()), StudentSide)|) && NoDup(r)
      ensures forall s :: s in r ==> Count(Join(State()), StudentSide, StudentKey(s)) > 0
      ensures forall i, j :: 0 <= i < j < |r| ==> AvgAtLeast(Join(State()), StudentSide, StudentKey(r[i]), StudentKey(r[j]))
      ensures forall p, q :: q in r && Count(Join(State()), StudentSide, p) > 0 && Student(p.id, p.name) !in r ==>
                AvgAtLeast(Join(State()), StudentSide, StudentKey(q), p)
    {
      var ps := MarkRepository.FindBestStudents(State(), n);
      var r := ToStudents(ps);
      assert forall p: IdName :: Student(p.id, p.name) in r <==> p in ps;
      r
    }

    /** bestStudentsSubject: as BestStudents, counting only the marks on subjects called `subjectName`. */
    function BestStudentsSubject(n: nat, subjectName: string): (r: seq<Student>)
      reads this
      ensures |r| == Min(n, |Keys(MarkRepository.RowsOnSubject(State(), subjectName), StudentSide)|) && NoDup(r)
      ensures forall s :: s in r ==> Count(MarkRepository.RowsOnSubject(State(), subjectName), StudentSide, StudentKey(s)) > 0
      ensures forall i, j :: 0 <= i < j < |r| ==>
                AvgAtLeast(MarkRepository.RowsOnSubject(State(), subjectName), StudentSide, StudentKey(r[i]), StudentKey(r[j]))
      ensures forall p, q ::
                (q in r && Count(MarkRepository.RowsOnSubject(State(), subjectName), StudentSide, p) > 0 &&
                 Student(p.id, p.name) !in r) ==>
                AvgAtLeast(MarkRepository.RowsOnSubject(State(), subjectName), StudentSide, StudentKey(q), p)
    {
      var ps := MarkRepository.FindBestStudentsSubject(State(), n, subjectName);
      var r := ToStudents(ps);
      assert forall p: IdName :: Student(p.id, p.name) in r <==> p in ps;
      r
    }

    /** subjectGreatestAvgMark: no subject when there are no marks, otherwise one with the greatest average. */
    function SubjectGreatestAvgMark(): (r: Option<Subject>)
      reads this
      requires Valid()
      ensures r.None? <==> |marks| == 0
      ensures r.Some? ==> Count(Join(State()), SubjectSide, SubjectKey(r.value)) > 0
      ensures r.Some? ==> forall q :: Count(Join(State()), SubjectSide, q) > 0 ==>
                            AvgAtLeast(Join(State()), SubjectSide, SubjectKey(r.value), q)
    {
      if |marks| == 0 then None
      else
        JoinLossless(students, subjects, marks);
        var p := MarkRepository.FindSubjectWithGreatestAvgMark(State());
        Some(Subject(p.value.id, p.value.name))
    }

    /** getStudentsSubjectMark: each name of a student with some mark of at least `mark` on the subject, once. */
    function GetStudentsSubjectMark(subjectName: string, mark: int): (r: seq<string>)
      reads this
      ensures NoDup(r)
      ensures forall n :: n in r <==>
                exists row :: row in Join(State()) && row.subject.name == subjectName && row.mark >= mark && row.student.name == n
    {
      MarkRepository.FindDistinctNamesMarkAtLeast(State(), subjectName, mark)
    }

    /** subjectsAvgMarkGreater: exactly the subjects with marks whose average is above `avgMark`. */
    function SubjectsAvgMarkGreater(avgMark: int): (r: seq<Subject>)
      reads this
      ensures NoDup(r)
      ensures forall s :: s in r <==>
                Count(Join(State()), SubjectSide, SubjectKey(s)) > 0 &&
                Total(Join(State()), SubjectSide, SubjectKey(s)) > avgMark * Count(Join(State()), SubjectSide, SubjectKey(s))
    {
      ToSubjects(MarkRepository.FindSubjectsAvgMarkGreater(State(), avgMark))
    }

    /** getStudentsAllMarksSubject: the students with a mark on the subject and none below `mark` on it. */
    function GetStudentsAllMarksSubject(mark: int, subject: string): (r: seq<Student>)
      reads this
      ensures NoDup(r)
      ensures forall s :: s in r <==>
                exists row :: row in Join(State()) && row.student == StudentKey(s) && MarkRepository.AllMarksAtLeast(State(), row, mark, subject)
    {
      ToStudents(MarkRepository.FindStudentsAllMarksGreaterEqual(State(), mark, subject))
    }

    /** getStudentsMaxMarksCount: no one when there are no marks, otherwise the students with the most marks. */
    function GetStudentsMaxMarksCount(): (r: seq<Student>)
      reads this
      ensures |marks| == 0 ==> r == []
      ensures NoDup(r)
      ensures forall s :: s in r <==> MarkRepository.HasMaxCount(Join(State()), StudentSide, StudentKey(s))
    {
      if |marks| == 0 then
        assert forall s :: !MarkRepository.HasMaxCount(Join(State()), StudentSide, StudentKey(s));
        []
      else ToStudents(MarkRepository.FindStudentsMaxMarks(State()))
    }

    /** getSubjectsAvgMarkLess: the subjects below `avgMark`, and every subject that has no marks. */
    function GetSubjectsAvgMarkLess(avgMark: int): (r: seq<Subject>)
      reads this
      ensures NoDup(r)
      ensures forall s :: s in r <==>
                s.id in subjects && subjects[s.id] == s.subjectName &&
                SubjectRepository.AvgLessOrUnmarked(State(), SubjectKey(s), avgMark)
      ensures forall id :: id in subjects && Count(Join(State()), SubjectSide, IdName(id, subjects[id])) == 0 ==>
                Subject(id, subjects[id]) in r
    {
      ToSubjects(SubjectRepository.GetSubjectsAvgMarkLess(State(), avgMark))
    }
  }
}

module CollegeScenarios {
  import opened Records
  import MarkRepository
  import opened CollegeService

  /** Two students, one subject, marks 90 and 60: the college average is 75. */
  function TwoStudentsDb(): Db
  {
    Db(map[1 := "Ann", 2 := "Bob"], map[10 := "Math"], [Mark(90, 1, 10), Mark(60, 2, 10)])
  }

  function TwoStudentsRows(): seq<Row>
  {
    [Row(90, IdName(1, "Ann"), IdName(10, "Math")), Row(60, IdName(2, "Bob"), IdName(10, "Math"))]
  }

  /** The two marks join to two rows; Ann has one mark of 90, Bob one of 60, Math both. */
  lemma TwoStudentsGroups()
    ensures Join(TwoStudentsDb()) == TwoStudentsRows()
    ensures SumMarks(TwoStudentsDb().marks) == 150
    ensures Count(TwoStudentsRows(), StudentSide, IdName(1, "Ann")) == 1
    ensures Total(TwoStudentsRows(), StudentSide, IdName(1, "Ann")) == 90
    ensures Count(TwoStudentsRows(), StudentSide, IdName(2, "Bob")) == 1
    ensures Total(TwoStudentsRows(), StudentSide, IdName(2, "Bob")) == 60
    ensures Count(TwoStudentsRows(), SubjectSide, IdName(10, "Math")) == 2
    ensures Total(TwoStudentsRows(), SubjectSide, IdName(10, "Math")) == 150
  {
    var db, rows := TwoStudentsDb(), TwoStudentsRows();
    assert db.marks[..1] == [Mark(90, 1, 10)];
    assert rows[..1] == [rows[0]];
  }

  /** Only Ann is at least as good as the college average of 75. */
  lemma TwoStudentsGoodQuery()
    ensures MarkRepository.FindGoodStudents(TwoStudentsDb()) == [IdName(1, "Ann")]
  {
    TwoStudentsGroups();
    var db, rows := TwoStudentsDb(), TwoStudentsRows();
    var ann, bob := IdName(1, "Ann"), IdName(2, "Bob");
    var r := MarkRepository.FindGoodStudents(db);
    assert MarkRepository.IsGoodStudent(db, ann);
    assert !MarkRepository.IsGoodStudent(db, bob);
    forall p | p in r ensures p == ann {
      assert Count(rows, StudentSide, p) > 0;
      assert p == ann || p == bob;
    }
    OnlyMember(r, ann);
  }

  lemma TwoStudentsGoodStudents(c: College)
    requires c.State() == TwoStudentsDb()
    ensures c.GoodCollegeStudents() == [Student(1, "Ann")]
  {
    TwoStudentsGoodQuery();
  }

  /** Math, with average 75, is above 70. */
  lemma TwoStudentsSubjectsQuery()
    ensures MarkRepository.FindSubjectsAvgMarkGreater(TwoStudentsDb(), 70) == [IdName(10, "Math")]
  {
    TwoStudentsGroups();
    var rows := TwoStudentsRows();
    var math := IdName(10, "Math");
    var r := MarkRepository.FindSubjectsAvgMarkGreater(TwoStudentsDb(), 70);
    forall p | p in r ensures p == math {
      assert Count(rows, SubjectSide, p) > 0;
    }
    OnlyMember(r, math);
  }

  lemma TwoStudentsSubjectsAbove(c: College)
    requires c.State() == TwoStudentsDb()
    ensures c.SubjectsAvgMarkGreater(70) == [Subject(10, "Math")]
  {
    TwoStudentsSubjectsQuery();
  }

  /** On an empty store there is no best subject and no student with the most marks. */
  lemma EmptyStoreScenario(c: College)
    requires c.State() == Db(map[], map[], [])
    ensures c.Valid()
    ensures c.SubjectGreatestAvgMark() == None
    ensures c.GetStudentsMaxMarksCount() == []
  {
  }

  /** Adding the same student twice: the second call fails and the first call's result stands. */
  method AddStudentTwice(c: College, s: Student) returns (first: Outcome, second: Outcome)
    requires c.Valid()
    modifies c
    ensures c.Valid()
    ensures second == Failed(StudentExists(s.id))
    ensures first == (if s.id in old(c.students) then Failed(StudentExists(s.id)) else Done)
    ensures c.students == old(c.students)[s.id := if s.id in old(c.students) then old(c.students)[s.id] else s.name]
    ensures c.subjects == old(c.subjects) && c.marks == old(c.marks)
  {
    first := c.AddStudent(s);
    second := c.AddStudent(s);
  }

  /** A repetition-free sequence whose only member is `a` is `[a]`. */
  lemma OnlyMember<T>(r: seq<T>, a: T)
    requires NoDup(r) && a in r && forall x :: x in r ==> x == a
    ensures r == [a]
  {
    assert r[0] in r;
    var t := r[1..];
    assert forall j :: 0 <= j < |t| ==> t[j] == r[j + 1] && t[j] != r[0] && t[j] in r;
    assert forall x :: x in t ==> x in r && x != r[0];
    assert forall x :: x !in t;
    NoMemberIsEmpty(t);
    assert r == [r[0]] + t;
  }
}
