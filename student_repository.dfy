/**
 * The two student queries the service relies on.  Their query text is not part
 * of this model; they are specified from what the service says of them: the
 * students with fewer marks than a count, and the students whose average is
 * below a threshold or who have no marks at all.
 */
module StudentRepository {
  import opened Records

  /** The group key of an existing student. */
  function KeyOfId(db: Db, id: int): IdName
    requires id in db.students
  {
    IdName(id, db.students[id])
  }

  /** count(marks) of student `id` (0 when the student has none). */
  function MarksCount(db: Db, id: int): nat
    requires id in db.students
  {
    Count(Join(db), StudentSide, KeyOfId(db, id))
  }

  /** sum(marks) of student `id`. */
  function MarksTotal(db: Db, id: int): int
    requires id in db.students
  {
    Total(Join(db), StudentSide, KeyOfId(db, id))
  }

  /** getStudentsCountLess: the students with fewer than `count` marks, as whole records, in id order. */
  function GetStudentsCountLess(db: Db, count: int): (r: seq<IdName>)
    ensures NoDup(r)
    ensures forall p :: p in r <==> p.id in db.students && p.name == db.students[p.id] && MarksCount(db, p.id) < count
  {
    Scan(db.students, (p: IdName) => p.id in db.students && MarksCount(db, p.id) < count)
  }

  function IdsOf(ps: seq<IdName>): (ids: set<int>)
    ensures forall id :: id in ids <==> exists p :: p in ps && p.id == id
  {
    set p | p in ps :: p.id
  }

  /** The ids of a prefix one element longer. */
  lemma IdsOfPrefix(ps: seq<IdName>, i: nat)
    requires i < |ps|
    ensures IdsOf(ps[..i + 1]) == IdsOf(ps[..i]) + {ps[i].id}
  {
    assert ps[..i + 1] == ps[..i] + [ps[i]];
  }

  /** The students deleteStudentsAvgMarkLess removes: average below `avgMark`, or no marks at all. */
  function AvgMarkLessIds(db: Db, avgMark: int): (ids: set<int>)
    ensures forall id :: id in ids <==>
              id in db.students && (MarksCount(db, id) == 0 || MarksTotal(db, id) < avgMark * MarksCount(db, id))
  {
    set id | id in db.students && (MarksCount(db, id) == 0 || MarksTotal(db, id) < avgMark * MarksCount(db, id))
  }

  /** A student kept by a deletion keeps every mark and hence its count and sum. */
  lemma SurvivorKeepsMarks(db: Db, ids: set<int>, id: int)
    requires id in db.students && id !in ids
    ensures id in DeleteStudents(db, ids).students
    ensures MarksCount(DeleteStudents(db, ids), id) == MarksCount(db, id)
    ensures MarksTotal(DeleteStudents(db, ids), id) == MarksTotal(db, id)
  {
    DeleteKeepsOtherGroups(db.students, db.subjects, db.marks, ids, KeyOfId(db, id));
  }

  /** After deleting the students with fewer than `count` marks, every remaining student has at least `count`. */
  lemma CountDeletionLeavesEnoughMarks(db: Db, count: int)
    ensures var after := DeleteStudents(db, IdsOf(GetStudentsCountLess(db, count)));
            && after.students.Keys == db.students.Keys - IdsOf(GetStudentsCountLess(db, count))
            && forall id :: id in after.students ==> MarksCount(after, id) >= count
  {
    var ids := IdsOf(GetStudentsCountLess(db, count));
    var after := DeleteStudents(db, ids);
    forall id | id in after.students ensures MarksCount(after, id) >= count {
      SurvivorKeepsMarks(db, ids, id);
      assert KeyOfId(db, id) !in GetStudentsCountLess(db, count);
    }
  }

  /** After deleteStudentsAvgMarkLess, every remaining student has marks and an average of at least `avgMark`. */
  lemma AvgDeletionLeavesPassingStudents(db: Db, avgMark: int)
    ensures var after := DeleteStudents(db, AvgMarkLessIds(db, avgMark));
            forall id :: id in after.students ==>
              MarksCount(after, id) > 0 && MarksTotal(after, id) >= avgMark * MarksCount(after, id)
  {
    var ids := AvgMarkLessIds(db, avgMark);
    var after := DeleteStudents(db, ids);
    forall id | id in after.students
      ensures MarksCount(after, id) > 0 && MarksTotal(after, id) >= avgMark * MarksCount(after, id)
    {
      SurvivorKeepsMarks(db, ids, id);
    }
  }
}
