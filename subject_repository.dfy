/**
 * The subject query with a right join: subjects whose average mark is below a
 * threshold.  In SQL the average of a subject without marks is NULL, and
 * `NULL < avgMark` is not true, so the query as written never returns such a
 * subject, while the service that calls it promises to include them.  Both
 * readings are modelled; the service uses the corrected one.
 */
module SubjectRepository {
  import opened Records

  /** The `having avg(m.mark) < avgMark` test as SQL evaluates it on the right-join group of `s`. */
  predicate AvgLessAsWritten(db: Db, s: IdName, avgMark: int)
  {
    var rows := Join(db);
    Count(rows, SubjectSide, s) > 0 && Total(rows, SubjectSide, s) < avgMark * Count(rows, SubjectSide, s)
  }

  /** The test the service means: no marks at all, or an average below `avgMark`. */
  predicate AvgLessOrUnmarked(db: Db, s: IdName, avgMark: int)
  {
    var rows := Join(db);
    Count(rows, SubjectSide, s) == 0 || Total(rows, SubjectSide, s) < avgMark * Count(rows, SubjectSide, s)
  }

  /** getSubjectsAvgMarkLess exactly as the query is written. */
  function GetSubjectsAvgMarkLessAsWritten(db: Db, avgMark: int): (r: seq<IdName>)
    ensures NoDup(r)
    ensures forall p :: p in r <==> p.id in db.subjects && p.name == db.subjects[p.id] && AvgLessAsWritten(db, p, avgMark)
  {
    Scan(db.subjects, (p: IdName) => AvgLessAsWritten(db, p, avgMark))
  }

  /**
   * A subject without marks is never returned by the query as written:
   * one subject, no marks, any threshold.
   */
  lemma AsWrittenDropsUnmarkedSubject(avgMark: int)
    ensures var db := Db(map[], map[10 := "Math"], []);
            && GetSubjectsAvgMarkLessAsWritten(db, avgMark) == []
            && IdName(10, "Math") in GetSubjectsAvgMarkLess(db, avgMark)
  {
    var db := Db(map[], map[10 := "Math"], []);
    var r := GetSubjectsAvgMarkLessAsWritten(db, avgMark);
    assert Join(db) == [];
    NoMemberIsEmpty(r);
  }

  /** getSubjectsAvgMarkLess as the service means it: subjects without marks qualify too. */
  function GetSubjectsAvgMarkLess(db: Db, avgMark: int): (r: seq<IdName>)
    ensures NoDup(r)
    ensures forall p :: p in r <==> p.id in db.subjects && p.name == db.subjects[p.id] && AvgLessOrUnmarked(db, p, avgMark)
  {
    Scan(db.subjects, (p: IdName) => AvgLessOrUnmarked(db, p, avgMark))
  }

  /** The corrected query differs from the written one exactly on the subjects without marks. */
  lemma CorrectedAddsOnlyUnmarked(db: Db, avgMark: int, p: IdName)
    ensures p in GetSubjectsAvgMarkLess(db, avgMark) <==>
            p in GetSubjectsAvgMarkLessAsWritten(db, avgMark) ||
            (p.id in db.subjects && p.name == db.subjects[p.id] && Count(Join(db), SubjectSide, p) == 0)
  {
  }
}
