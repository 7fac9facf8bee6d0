# College records: a Dafny model

This project models the core of a small college-records service. The service keeps three tables:

- students (id → name);
- subjects (id → subject name);
- marks (a value, a student id, a subject id).

It offers existence-checked inserts, two bulk deletions of weak students, and a family of aggregate queries: marks of a student on a subject, students above the college average, best N students overall or on one subject, subjects above or below an average, the subject with the greatest average, and the students with the most marks.

Modules:

- `Records` (records.dfy) holds the store, the inner join of marks with students and subjects that every mark query ranges over, and the group aggregates `count` and `sum`. Averages are never divided out. Two groups are compared exactly by cross-multiplying sums and counts (`AvgAtLeast`). `select distinct`, `group by`, `having` and a scan of an entity table in id order are written once here and reused. The same module holds the cascading student deletion.
- `MarkRepository` (mark_repository.dfy) holds the nine mark queries. The `order by avg desc limit n` queries are a stable insertion sort by average followed by taking the first n.
- `SubjectRepository` (subject_repository.dfy) holds the right-join query for subjects with a low average. It comes in two forms: as written, and as the service means it (see Findings).
- `StudentRepository` (student_repository.dfy) holds the two student queries the service calls. Their query text is not part of this model, so they are specified from the service comments.
- `CollegeService` (college_service.dfy) holds the class `College`. The class owns the three tables as fields. Its write operations are methods that `modify` the object. Its read operations are functions that only `read` it, so every query leaves the store unchanged. Each service call is one atomic step.
- `CollegeScenarios` (also in college_service.dfy) holds the worked scenarios: two students and one subject; an empty store; adding a student twice.

The object invariant `Valid()` is referential integrity: every mark refers to an existing student and subject. Every write operation preserves it. Under it the inner join loses no mark (`Records.JoinLossless`). So "no marks in the table", which is the service's own guard, and "no joined rows", which is what the queries see, coincide.

The definitions choose result order as follows:

- grouped results come in order of first appearance in the marks table;
- entity scans come in ascending id;
- the name-pair lookup follows the order of the marks table;
- the best-N queries are specified up to ties in the average.

Most contracts state membership, repetitions and multiplicities only. Three contracts also fix an order, which "## Left out" names.

## Model

| member | source | states |
|---|---|---|
| Records.JoinMarks | src/main/java/telran/college/repo/MarkRepository.java:31 | the join has a row for every mark whose student and subject exist, and every row comes from such a mark, with the stored names |
| Records.Count | src/main/java/telran/college/repo/MarkRepository.java:53-54 | a group's `count(m.mark)` is positive exactly when some row belongs to the group |
| Records.SelectDistinct | src/main/java/telran/college/repo/MarkRepository.java:18-19 | `select distinct`: no repetitions, and a value is present exactly when some kept row yields it |
| Records.Filter | src/main/java/telran/college/repo/MarkRepository.java:14-16 | a plain selection keeps every kept row as often as it occurs in the input, and no other row |
| Records.FilterAppend | src/main/java/telran/college/repo/MarkRepository.java:14-16 | one more input row adds exactly that row to the selection when it is kept, and nothing otherwise |
| Records.MarksOf | src/main/java/telran/college/service/CollegeServiceImpl.java:73 | one mark value per row, in row order |
| Records.Keys | src/main/java/telran/college/repo/MarkRepository.java:22-23 | `group by`: each key once, and exactly the keys with at least one row |
| Records.Having | src/main/java/telran/college/repo/MarkRepository.java:23-24 | `having`: exactly the groups that pass the test, still without repetitions |
| Records.Scan | src/main/java/telran/college/repo/SubjectRepository.java:11 | `select s from SubjectEntity s where ...`: exactly the stored (id, name) pairs passing the test, each once |
| Records.SortedIdsOrdered | src/main/java/telran/college/repo/SubjectRepository.java:11 | the ids of a table, each once, strictly increasing |
| Records.KeyIsEntity | src/main/java/telran/college/repo/MarkRepository.java:22 | a group key is an existing student or subject with its stored name |
| Records.AvgAtLeastTotal | src/main/java/telran/college/repo/MarkRepository.java:32 | any two groups can be compared by average |
| Records.AvgAtLeastTrans | src/main/java/telran/college/repo/MarkRepository.java:32 | the average order on groups with marks is transitive |
| Records.CrossTrans | src/main/java/telran/college/repo/MarkRepository.java:32 | comparing averages by cross-multiplication is transitive for positive counts |
| Records.JoinLossless | src/main/java/telran/college/service/CollegeServiceImpl.java:106-108 | when every mark refers to existing entities, the join has as many rows as there are marks, with the same total |
| Records.JoinAppend | src/main/java/telran/college/service/CollegeServiceImpl.java:63-64 | appending a mark appends its row when both referenced entities exist, and nothing otherwise |
| Records.CountAppend | src/main/java/telran/college/service/CollegeServiceImpl.java:63-64 | an appended row adds one to its own group's count and its value to that group's sum, and leaves other groups alone |
| Records.JoinAddEntity | src/main/java/telran/college/service/CollegeServiceImpl.java:35-36 | adding a student or subject that is not yet present does not change the join, hence no mark query |
| Records.MarksWithout | src/main/java/telran/college/service/CollegeServiceImpl.java:138 | the marks left after deleting students are exactly the marks of the other students |
| Records.MarksWithoutMultiset | src/main/java/telran/college/service/CollegeServiceImpl.java:138 | after deleting students, every mark of another student occurs as often as in the table and no mark of a deleted student remains |
| Records.MarksWithoutAppend | src/main/java/telran/college/service/CollegeServiceImpl.java:138 | a mark appended to the table survives the deletion exactly when its student is not deleted |
| Records.DeleteStudents | src/main/java/telran/college/service/CollegeServiceImpl.java:138 | deleting students removes exactly their ids, keeps every other name and all subjects, and keeps integrity |
| Records.DeleteKeepsOtherGroups | src/main/java/telran/college/service/CollegeServiceImpl.java:138 | deleting some students leaves the mark count and sum of every other student unchanged |
| Records.MarksWithoutTwice | src/main/java/telran/college/service/CollegeServiceImpl.java:138 | removing the marks of two sets of students in turn is removing those of their union |
| Records.DeleteStudentsTwice | src/main/java/telran/college/service/CollegeServiceImpl.java:138 | deleting student sets one after another is deleting their union |
| Records.DeleteNoStudents | src/main/java/telran/college/service/CollegeServiceImpl.java:138 | deleting no students changes nothing |
| MarkRepository.RowsOnPair | src/main/java/telran/college/repo/MarkRepository.java:14-16 | the joined rows of students with that name on subjects with that name, each as often as it occurs in the join |
| MarkRepository.FindByStudentNameAndSubjectName | src/main/java/telran/college/repo/MarkRepository.java:14-16 | one value per matching joined mark, duplicates included; a value is returned exactly when some mark of a student with that name, on a subject with that name, has that value; students sharing a name all count |
| MarkRepository.LookupAfterAddMark | src/main/java/telran/college/repo/MarkRepository.java:16 | after a mark is added, the lookup is the old lookup plus the new value exactly when the new mark is on the pair |
| MarkRepository.FindDistinctNamesMarkAtLeast | src/main/java/telran/college/repo/MarkRepository.java:18-20 | each name once, students sharing a name merged; a name is present exactly when some student with that name has a mark of at least `mark` on some subject with that name |
| MarkRepository.FindGoodStudents | src/main/java/telran/college/repo/MarkRepository.java:22-25 | exactly the students with marks whose average is at least the average of all marks; each once, each an existing student |
| MarkRepository.FindSubjectsAvgMarkGreater | src/main/java/telran/college/repo/MarkRepository.java:27-29 | exactly the subjects with marks whose average is strictly above the threshold, each once |
| MarkRepository.InsertByAvg | src/main/java/telran/college/repo/MarkRepository.java:32 | inserting a key adds exactly that key |
| MarkRepository.SortByAvg | src/main/java/telran/college/repo/MarkRepository.java:32 | sorting by average is a permutation |
| MarkRepository.InsertByAvgSorted | src/main/java/telran/college/repo/MarkRepository.java:32 | inserting into a list sorted by non-increasing average keeps it sorted and repetition-free |
| MarkRepository.SortByAvgSorted | src/main/java/telran/college/repo/MarkRepository.java:32 | `order by avg desc`: the result is sorted by non-increasing average and repetition-free |
| MarkRepository.TopOfSorted | src/main/java/telran/college/repo/MarkRepository.java:32 | `limit n` on the sorted groups keeps them sorted, and no omitted group beats a kept one |
| MarkRepository.Best | src/main/java/telran/college/repo/MarkRepository.java:31-33 | min(n, number of groups) groups with marks, each once, sorted by average, none omitted beating one kept |
| MarkRepository.FindBestStudents | src/main/java/telran/college/repo/MarkRepository.java:31-33 | at most n students (exactly min(n, students with marks)), each with marks, sorted by non-increasing average, no omitted student with marks beats a returned one |
| MarkRepository.RowsOnSubject | src/main/java/telran/college/repo/MarkRepository.java:41-43 | the joined rows on a subject with that name, each as often as it occurs in the join, so per-student counts and sums are those of the marks on that subject |
| MarkRepository.FindBestStudentsSubject | src/main/java/telran/college/repo/MarkRepository.java:41-45 | as FindBestStudents, with counts and averages over the marks on that subject only |
| MarkRepository.FindStudentsAllMarksGreaterEqual | src/main/java/telran/college/repo/MarkRepository.java:35-39 | a student is returned, once, exactly when it has a mark on a subject of that name and no mark on that same subject id below `mark` |
| MarkRepository.AllMarksAtLeastOnSubject | src/main/java/telran/college/repo/MarkRepository.java:35-39 | with one subject of that name: exactly the existing students with at least one mark on it and none below `mark`; a student without marks on it is not returned |
| MarkRepository.FindSubjectWithGreatestAvgMark | src/main/java/telran/college/repo/MarkRepository.java:48-51 | no row exactly when there are no joined marks; otherwise a subject with marks whose average is at least every other subject's |
| MarkRepository.MaxCount | src/main/java/telran/college/repo/MarkRepository.java:55-57 | `max(count)`: an upper bound of the groups' counts that some group reaches |
| MarkRepository.MaxCountGroups | src/main/java/telran/college/repo/MarkRepository.java:53-57 | a group reaches the subquery's maximum exactly when it has marks and no group has more |
| MarkRepository.FindStudentsMaxMarks | src/main/java/telran/college/repo/MarkRepository.java:53-59 | exactly the students with marks whose count no student exceeds, each once |
| SubjectRepository.GetSubjectsAvgMarkLessAsWritten | src/main/java/telran/college/repo/SubjectRepository.java:11-14 | as written: exactly the stored subjects that have marks and an average strictly below the threshold, each once |
| SubjectRepository.AsWrittenDropsUnmarkedSubject | src/main/java/telran/college/repo/SubjectRepository.java:12-13 | a store with one subject and no marks: the query as written returns nothing, while the intended query returns that subject |
| SubjectRepository.GetSubjectsAvgMarkLess | src/main/java/telran/college/service/CollegeServiceImpl.java:169-170 | exactly the stored subjects that have no marks or whose average is below the threshold, each once |
| SubjectRepository.CorrectedAddsOnlyUnmarked | src/main/java/telran/college/repo/SubjectRepository.java:12-13 | the intended query is the written one plus exactly the stored subjects without marks |
| StudentRepository.GetStudentsCountLess | src/main/java/telran/college/service/CollegeServiceImpl.java:135-137 | exactly the stored students with fewer than `count` marks, each once |
| StudentRepository.IdsOf | src/main/java/telran/college/service/CollegeServiceImpl.java:138 | the ids of a list of student records |
| StudentRepository.IdsOfPrefix | src/main/java/telran/college/service/CollegeServiceImpl.java:138 | one more deleted record adds exactly its id |
| StudentRepository.AvgMarkLessIds | src/main/java/telran/college/service/CollegeServiceImpl.java:116-120 | exactly the stored students with no marks or an average below the threshold |
| StudentRepository.SurvivorKeepsMarks | src/main/java/telran/college/service/CollegeServiceImpl.java:138 | a student not deleted stays, with the same mark count and sum |
| StudentRepository.CountDeletionLeavesEnoughMarks | src/main/java/telran/college/service/CollegeServiceImpl.java:134-138 | after the deletion exactly the other students remain, each with at least `count` marks |
| StudentRepository.AvgDeletionLeavesPassingStudents | src/main/java/telran/college/service/CollegeServiceImpl.java:115-120 | after the deletion every remaining student has marks and an average of at least the threshold |
| CollegeService.ToStudents | src/main/java/telran/college/service/CollegeServiceImpl.java:90-93 | toStudentsFromProj: same length, same order, same id and name at every position, and no repetitions introduced |
| CollegeService.ToSubjects | src/main/java/telran/college/service/CollegeServiceImpl.java:146-148 | the same mapping to subjects: length, order, id and name kept |
| CollegeService.College.constructor | src/main/java/telran/college/service/CollegeServiceImpl.java:22-27 | the store starts with empty tables and satisfies integrity; the source's constructor only wires repositories over whatever the database holds, and no method relies on the store being empty, since every method requires only `Valid()` |
| CollegeService.College.AddStudent | src/main/java/telran/college/service/CollegeServiceImpl.java:31-39 | an id already present fails with nothing changed; a fresh id adds exactly id → name; subjects and marks are untouched; integrity is kept |
| CollegeService.College.AddSubject | src/main/java/telran/college/service/CollegeServiceImpl.java:43-50 | an id already present fails with nothing changed; a fresh id adds exactly id → subject name; students and marks are untouched |
| CollegeService.College.AddMark | src/main/java/telran/college/service/CollegeServiceImpl.java:54-66 | a missing student fails first, then a missing subject, each with no new mark; otherwise exactly one mark with the given value and both ids is appended; the entity tables are untouched |
| CollegeService.College.Delete | src/main/java/telran/college/service/CollegeServiceImpl.java:138 | deleting one student record removes that student and its marks |
| CollegeService.College.DeleteEach | src/main/java/telran/college/service/CollegeServiceImpl.java:138 | deleting the records one by one ends in the state of deleting all their ids at once |
| CollegeService.College.DeleteStudentsMarksCountLess | src/main/java/telran/college/service/CollegeServiceImpl.java:134-141 | returns exactly the students that had fewer than `count` marks before the call, in query order; afterwards exactly those ids and their marks are gone and everything else is unchanged |
| CollegeService.College.DeleteStudentsAvgMarkLess | src/main/java/telran/college/service/CollegeServiceImpl.java:115-122 | removes exactly the students with no marks or an average below the threshold, with their marks; everything else is unchanged |
| CollegeService.College.GetStudentMarksSubject | src/main/java/telran/college/service/CollegeServiceImpl.java:68-74 | the repository lookup unchanged: one value per matching mark, duplicates included, in join order; a value is returned exactly when some stored mark of a student with that name, on a subject with that name, has that value |
| CollegeService.College.GoodCollegeStudents | src/main/java/telran/college/service/CollegeServiceImpl.java:77-81 | exactly the students whose average is at least the college average, each once, each an existing student |
| CollegeService.College.BestStudents | src/main/java/telran/college/service/CollegeServiceImpl.java:85-89 | min(n, students with marks) students, each once, best average first; no student left out has a higher average than one returned |
| CollegeService.College.BestStudentsSubject | src/main/java/telran/college/service/CollegeServiceImpl.java:96-100 | as BestStudents, over the marks on the named subject |
| CollegeService.College.SubjectGreatestAvgMark | src/main/java/telran/college/service/CollegeServiceImpl.java:103-111 | no subject exactly when the marks table is empty; otherwise a subject with marks whose average no subject exceeds |
| CollegeService.College.GetStudentsSubjectMark | src/main/java/telran/college/service/CollegeServiceImpl.java:125-130 | each name once, students sharing a name merged; a name is present exactly when some student with that name has a mark of at least `mark` on some subject with that name |
| CollegeService.College.SubjectsAvgMarkGreater | src/main/java/telran/college/service/CollegeServiceImpl.java:144-149 | exactly the subjects with marks whose average is above the threshold, each once |
| CollegeService.College.GetStudentsAllMarksSubject | src/main/java/telran/college/service/CollegeServiceImpl.java:152-155 | exactly the students with a mark on the subject and none below `mark` on it, each once |
| CollegeService.College.GetStudentsMaxMarksCount | src/main/java/telran/college/service/CollegeServiceImpl.java:158-165 | an empty marks table gives an empty list; otherwise exactly the students with the greatest mark count, each once |
| CollegeService.College.GetSubjectsAvgMarkLess | src/main/java/telran/college/service/CollegeServiceImpl.java:168-174 | exactly the stored subjects below the threshold or without marks, each once; in particular every subject without marks, whatever the threshold |
| CollegeScenarios.TwoStudentsGroups | src/main/java/telran/college/repo/MarkRepository.java:22-24 | Ann (90) and Bob (60) on Math: the join, the counts and the sums of the scenario |
| CollegeScenarios.TwoStudentsGoodQuery | src/main/java/telran/college/repo/MarkRepository.java:22-25 | on the scenario store the good-students query returns exactly [Ann] |
| CollegeScenarios.TwoStudentsSubjectsQuery | src/main/java/telran/college/repo/MarkRepository.java:27-29 | on the scenario store the subjects-above-70 query returns exactly [Math] |
| CollegeScenarios.TwoStudentsGoodStudents | src/main/java/telran/college/service/CollegeServiceImpl.java:77-81 | with a college average of 75, the good students are exactly [Ann] |
| CollegeScenarios.TwoStudentsSubjectsAbove | src/main/java/telran/college/service/CollegeServiceImpl.java:144-149 | Math, with average 75, is the only subject above 70 |
| CollegeScenarios.EmptyStoreScenario | src/main/java/telran/college/service/CollegeServiceImpl.java:106-108 | on an empty store there is no greatest-average subject and no student with the most marks |
| CollegeScenarios.AddStudentTwice | src/main/java/telran/college/service/CollegeServiceImpl.java:31-36 | adding the same student twice: the second call fails and leaves the first call's state |

## Left out

- Spring wiring, `@Transactional` boundaries and isolation. Each service call is one atomic step on one object. Concurrency is not modelled.
- JPA and Hibernate: `save`, `existsById`, `findById` and `count` are map and sequence operations on the object's fields. Generated mark ids are not modelled, because no operation reads them.
- The projection interfaces, DTO classes and entity classes are not part of this model. Projections are (id, name) pairs; DTOs are plain datatypes.
- Floating-point averages, including the `double` cast at src/main/java/telran/college/service/CollegeServiceImpl.java:120 and the `double` parameters of two repository queries. Thresholds are integers, and averages are compared exactly by cross-multiplication.
- The StudentRepository query text is not part of this model. `StudentRepository.GetStudentsCountLess` and `StudentRepository.AvgMarkLessIds` are specified from the service comments at src/main/java/telran/college/service/CollegeServiceImpl.java:116-118 and 135-136.
- `CollegeService.College.Delete`, `CollegeService.College.DeleteEach`, `CollegeService.College.DeleteStudentsMarksCountLess`, `CollegeService.College.DeleteStudentsAvgMarkLess` and `Records.DeleteStudents`: they assume that deleting a student also deletes its marks (a cascading foreign key). The mark entity's mapping and the bulk-delete query text are not part of this model.
- `CollegeService.College.DeleteStudentsMarksCountLess`: it deletes the records one at a time, as the source does. The order of the deletions is not observable in the model.
- `MarkRepository.FindByStudentNameAndSubjectName`, `CollegeService.College.GetStudentMarksSubject` and `CollegeService.College.DeleteStudentsMarksCountLess`: their contracts fix an order that the source does not promise. The derived query at src/main/java/telran/college/repo/MarkRepository.java:16 has no `order by`, yet both lookups are tied position by position to the joined rows in marks-table order. The deleted records returned at src/main/java/telran/college/service/CollegeServiceImpl.java:137-140 are tied to the scan in ascending id. A database may return these rows in any order. The model promises one particular order.
- Row order of the other results without `order by` is not promised by their contracts. The best-N contracts hold for any ordering of ties, so the database's tie-breaking is left out.
- `MarkRepository.FindBestStudents`, `MarkRepository.FindBestStudentsSubject`, `CollegeService.College.BestStudents` and `CollegeService.College.BestStudentsSubject` take the limit as a natural number, while the service accepts any `int` (CollegeServiceImpl.java:85 and 96) and passes it on to the native `limit`. A negative limit behaves differently on different databases and is left out.
- `MarkRepository.FindBestStudents`, `MarkRepository.FindStudentsMaxMarks`, `MarkRepository.FindGoodStudents`, `MarkRepository.FindSubjectWithGreatestAvgMark`, `MarkRepository.FindSubjectsAvgMarkGreater`, `SubjectRepository.GetSubjectsAvgMarkLessAsWritten` and `SubjectRepository.GetSubjectsAvgMarkLess`: the source joins marks with one table only (students at MarkRepository.java:22, 31 and 53-54; subjects at MarkRepository.java:27, 48-49 and SubjectRepository.java:12). The model always joins with both tables. Under the integrity invariant `Valid()`, which every service call keeps, every mark has both its student and its subject, so the two joins coincide.
- `MarkRepository.FindStudentsAllMarksGreaterEqual`: it models the code as written, where the subquery correlates on the subject's id, not its name. `MarkRepository.AllMarksAtLeastOnSubject` states the result when only one subject has that name.
- Exception messages are not modelled. A failure is an `Outcome.Failed` carrying which check failed and the id.

Two behaviours worth noting:

- The outer select of the "all marks at least" query at src/main/java/telran/college/repo/MarkRepository.java:35-36 ranges only over marks on the subject. So a student with no mark on it is never returned (`MarkRepository.AllMarksAtLeastOnSubject`).
- The comment at src/main/java/telran/college/service/CollegeServiceImpl.java:169-170 promises subjects without marks, but the query does not return them (see Findings). The service operation uses the corrected query.

## Findings

| source | as written | input that shows it | evidently intended | confidence | as-written member | corrected member |
|---|---|---|---|---|---|---|
| src/main/java/telran/college/repo/SubjectRepository.java:12-13 | `having avg(m.mark) < :avgMark` over a right join: for a subject without marks, `avg` is NULL and the comparison is not true, so the subject is never returned | subjects {10: "Math"}, no marks, any threshold: the query returns an empty list | every subject without marks is returned, as the comment at src/main/java/telran/college/service/CollegeServiceImpl.java:169-170 says | not executed | SubjectRepository.AsWrittenDropsUnmarkedSubject | SubjectRepository.GetSubjectsAvgMarkLess |
