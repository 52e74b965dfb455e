# Classroom assignments: a Dafny model of the hand-in and grading lifecycle

This project models the core of a Spring web application for a university course. Teachers
create assignments for a student group, with optional attachment files. Students of that group
hand in one solution per assignment. The author of the assignment grades it. Assignments go
from ACTIVE to EXPIRED once their deadline has passed. Per-assignment and site-wide statistics
summarise the submissions.

The model covers these parts of the application:

- the persistent entities (`Entities`);
- the relational store with its key constraints (`Store`);
- the Spring Data repositories, including the JPQL queries (`AssignmentRepository`,
  `SubmissionRepository`, `UserRepository`, `SubjectRepository`, `StatisticsRepository`);
- the upload directory (`FileStorage`);
- the services (`SubmissionService`, `AssignmentService`, `AuthService`, `UserService`,
  `SubjectService`);
- the access decisions and redirects of the two web controllers (`SubmissionController`,
  `AssignmentController`).

How the model is built:

- Each table is a sequence of rows. Uniqueness of keys is an invariant
  (`Store.Consistent`), not a map. Every repository query is a filter over a table. The
  order of the rows carries no meaning. Apart from `getAverageScoresByStudent`, whose
  descending order `StatisticsRepository.AverageScoresByStudent` states, the queries have no
  ORDER BY, so the contracts of the other list queries state membership only.
- The `Store.Database` class holds the tables and the set of file names in the upload
  directory. The services that write to the store are methods whose `modifies` clauses name
  the tables they change. Each states the whole new state and keeps `Valid()`.
- Read-only services, repositories and controller decisions are functions over the tables.
- Exceptions become `Result` values, one `Error` constructor per distinct failure. The
  controllers' `try`/`catch` blocks become the redirect each failure leads to.
- The following are parameters:
  - the clock (`now`);
  - the generated UUID (`Upload.fileId`);
  - whether `Files.copy` succeeds (`Upload.copies`);
  - which deletions fail (`failing`, `fails`);
  - database-generated ids (`newId`, `rowIds`, fresh by precondition);
  - the password encoder (`encode`).
- Times are integers, ordered as `LocalDateTime` is.

## Model

| member | source | states |
|---|---|---|
| Entities.User.RoleDisplayName | src/main/java/ru/rutmiit/models/entities/User.java:63-65 | the display name is empty exactly when the role is null |
| Entities.User.RoleWithPrefix | src/main/java/ru/rutmiit/models/entities/User.java:68-70 | the authority is "ROLE_" followed by the role's enum name, and empty exactly when the role is null |
| Entities.RolePredicatesExclusive | src/main/java/ru/rutmiit/models/entities/User.java:51-61 | `isAdmin`, `isTeacher` and `isStudent` hold at most once, and exactly once when the role is set |
| Entities.RoleWithPrefixInjective | src/main/java/ru/rutmiit/models/entities/User.java:68-70 | two users with the same authority string have the same role |
| AssignmentRepository.FindById | src/main/java/ru/rutmiit/repositories/AssignmentRepository.java:18 | none exactly when no row has the key; otherwise a row of the table with that key |
| AssignmentRepository.FindByGroup | src/main/java/ru/rutmiit/repositories/AssignmentRepository.java:20 | an assignment is listed iff it is in the table and belongs to the group |
| AssignmentRepository.FindByTeacher | src/main/java/ru/rutmiit/repositories/AssignmentRepository.java:22 | an assignment is listed iff it is in the table and the teacher owns it |
| AssignmentRepository.FindByGroupAndStatus | src/main/java/ru/rutmiit/repositories/AssignmentRepository.java:30 | an assignment is listed iff it matches both the group and the status |
| AssignmentRepository.FindActiveForGroup | src/main/java/ru/rutmiit/repositories/AssignmentRepository.java:34-35 | an assignment is listed iff it is of the group, ACTIVE, and its deadline is strictly after now |
| AssignmentRepository.FindExpired | src/main/java/ru/rutmiit/repositories/AssignmentRepository.java:37-38 | an assignment is listed iff it is ACTIVE and its deadline is strictly before now |
| AssignmentRepository.FindByGroupAndDeadlineBetween | src/main/java/ru/rutmiit/repositories/AssignmentRepository.java:43-47 | an assignment is listed iff it is of the group and its deadline lies between both bounds, inclusive |
| AssignmentRepository.CountByTeacherIsListLength | src/main/java/ru/rutmiit/repositories/AssignmentRepository.java:40-41 | the teacher count equals the length of the teacher's list |
| AssignmentRepository.ActiveAndExpiredDisjoint | src/main/java/ru/rutmiit/repositories/AssignmentRepository.java:34-38 | no assignment is both open and overdue at one instant; one due exactly now is in neither list |
| AssignmentRepository.GroupAndStatusRefinesGroup | src/main/java/ru/rutmiit/repositories/AssignmentRepository.java:20-30 | the group-and-status list is the group list filtered by status, in the same order |
| SubmissionRepository.FindById | src/main/java/ru/rutmiit/repositories/SubmissionRepository.java:17 | none exactly when no row has the key; otherwise a row with that key |
| SubmissionRepository.FindByAssignmentAndStudent | src/main/java/ru/rutmiit/repositories/SubmissionRepository.java:19 | none exactly when no row has that (assignment, student) pair; otherwise a row with that pair |
| SubmissionRepository.FindByAssignment | src/main/java/ru/rutmiit/repositories/SubmissionRepository.java:21 | a submission is listed iff it belongs to the assignment |
| SubmissionRepository.FindByStudent | src/main/java/ru/rutmiit/repositories/SubmissionRepository.java:23 | a submission is listed iff the student made it |
| SubmissionRepository.FindGradedByAssignment | src/main/java/ru/rutmiit/repositories/SubmissionRepository.java:27 | a submission is listed iff it belongs to the assignment and has a score |
| SubmissionRepository.FindByTeacher | src/main/java/ru/rutmiit/repositories/SubmissionRepository.java:29-30 | a submission is listed iff its assignment's author is the teacher |
| SubmissionRepository.FindUncheckedByTeacher | src/main/java/ru/rutmiit/repositories/SubmissionRepository.java:32-33 | a submission is listed iff its assignment's author is the teacher and it has no score |
| SubmissionRepository.ScoresOf | src/main/java/ru/rutmiit/repositories/SubmissionRepository.java:35-36 | one score per graded submission |
| SubmissionRepository.ScoresOfGraded | src/main/java/ru/rutmiit/repositories/SubmissionRepository.java:35-36 | a list of graded submissions yields exactly one score each |
| SubmissionRepository.AverageScoreOfStudent | src/main/java/ru/rutmiit/repositories/SubmissionRepository.java:35-36 | NULL exactly when the student has no graded submission; otherwise the mean of one score per graded submission |
| SubmissionRepository.AtMostOnePerPair | src/main/java/ru/rutmiit/repositories/SubmissionRepository.java:19 | under the unique pair constraint at most one row matches, and the lookup returns it |
| SubmissionRepository.UncheckedRestrictsTeacherList | src/main/java/ru/rutmiit/repositories/SubmissionRepository.java:29-33 | the unchecked list is the teacher's list restricted to null scores, in order |
| SubmissionRepository.GradedAndUngradedPartition | src/main/java/ru/rutmiit/repositories/SubmissionRepository.java:21-27 | the graded list is the assignment's list restricted to scores, and graded plus ungraded is all |
| SubmissionRepository.LateCountIsLateSubmissions | src/main/java/ru/rutmiit/repositories/SubmissionRepository.java:38-39 | the late count is the number of the assignment's submissions flagged late |
| UserRepository.FindById | src/main/java/ru/rutmiit/repositories/UserRepository.java:13 | none exactly when no row has the key; otherwise a row with that key |
| UserRepository.FindByUsername | src/main/java/ru/rutmiit/repositories/UserRepository.java:15 | none exactly when no row has the username; otherwise a row with it |
| UserRepository.FindByEmail | src/main/java/ru/rutmiit/repositories/UserRepository.java:17 | none exactly when no row has that email; a null email never matches |
| UserRepository.ExistsByUsername | src/main/java/ru/rutmiit/repositories/UserRepository.java:21 | true iff some row has the username |
| UserRepository.ExistsByEmail | src/main/java/ru/rutmiit/repositories/UserRepository.java:23 | true iff some row has the email |
| UserRepository.FindByRole | src/main/java/ru/rutmiit/repositories/UserRepository.java:19 | a user is listed iff they hold the role |
| UserRepository.GroupsOf | src/main/java/ru/rutmiit/repositories/UserRepository.java:30-31 | a group is listed iff some user has it as non-null group |
| UserRepository.FindDistinctGroups | src/main/java/ru/rutmiit/repositories/UserRepository.java:30-31 | every non-null group of some user, each exactly once |
| UserRepository.CountByRoleIsListLength | src/main/java/ru/rutmiit/repositories/UserRepository.java:19-25 | the role count equals the length of the role list |
| SubjectRepository.FindById | src/main/java/ru/rutmiit/repositories/SubjectRepository.java:10 | none exactly when no row has the key; otherwise a row with that key |
| SubjectRepository.ExistsByName | src/main/java/ru/rutmiit/repositories/SubjectRepository.java:12 | true iff some subject has the name |
| StatisticsRepository.CountPositiveIffPresent | src/main/java/ru/rutmiit/repositories/StatisticsRepository.java:16-17 | a status has a non-zero count iff some assignment holds it |
| StatisticsRepository.GroupRows | src/main/java/ru/rutmiit/repositories/StatisticsRepository.java:16-17 | one row per listed status that occurs, with its exact positive count, no status twice |
| StatisticsRepository.PrependRow | src/main/java/ru/rutmiit/repositories/StatisticsRepository.java:16-17 | a row for a new status in front keeps every status reported once |
| StatisticsRepository.CountAssignmentsByStatus | src/main/java/ru/rutmiit/repositories/StatisticsRepository.java:16-17 | a status is reported iff it occurs; each row counts exactly the assignments holding it; no status twice |
| StatisticsRepository.StatusCountsCoverTable | src/main/java/ru/rutmiit/repositories/StatisticsRepository.java:16-17 | the three status counts add up to the number of assignments |
| StatisticsRepository.GroupRowsSum | src/main/java/ru/rutmiit/repositories/StatisticsRepository.java:16-17 | the grouped rows sum to the counts of the listed statuses |
| StatisticsRepository.GroupedCountsSumToTotal | src/main/java/ru/rutmiit/repositories/StatisticsRepository.java:16-17 | the GROUP BY counts add up to the number of assignments |
| StatisticsRepository.AssignmentStatusTotals | src/main/java/ru/rutmiit/repositories/StatisticsRepository.java:32-37 | NULL sums exactly on an empty table; otherwise each sum counts its status and the three add up to the table size |
| StatisticsRepository.TotalsAgreeWithGroups | src/main/java/ru/rutmiit/repositories/StatisticsRepository.java:16-37 | the totals row and the grouped rows report the same count for every status |
| StatisticsRepository.StudentIdsOf | src/main/java/ru/rutmiit/repositories/StatisticsRepository.java:22-27 | an id is listed iff some submission is by that student |
| StatisticsRepository.GradedStudents | src/main/java/ru/rutmiit/repositories/StatisticsRepository.java:22-27 | the GROUP BY keys: each existing student with a graded submission, exactly once |
| StatisticsRepository.InsertByAverage | src/main/java/ru/rutmiit/repositories/StatisticsRepository.java:26 | inserting into a descending list keeps it descending and adds exactly the new row |
| StatisticsRepository.SortByAverageDesc | src/main/java/ru/rutmiit/repositories/StatisticsRepository.java:26 | ORDER BY avgScore DESC: a permutation of the rows, highest mean first |
| StatisticsRepository.RowsFor | src/main/java/ru/rutmiit/repositories/StatisticsRepository.java:22-25 | one row per listed student, in order |
| StatisticsRepository.RowsForMembers | src/main/java/ru/rutmiit/repositories/StatisticsRepository.java:22-25 | the rows for a list of students are exactly those students' rows |
| StatisticsRepository.SameMultisetSameMembers | src/main/java/ru/rutmiit/repositories/StatisticsRepository.java:26 | reordering keeps the length and the members |
| StatisticsRepository.AverageScoresByStudent | src/main/java/ru/rutmiit/repositories/StatisticsRepository.java:22-27 | sorted by mean descending; exactly one row per graded student, and every row is some graded student's row |
| StatisticsRepository.RowAverageIsStudentAverage | src/main/java/ru/rutmiit/repositories/StatisticsRepository.java:22-27 | each row carries the student's full name and the same mean as the per-student AVG query |
| FileStorage.LastIndexOf | src/main/java/ru/rutmiit/services/FileStorageService.java:45 | -1 exactly when the character is absent; otherwise its last position |
| FileStorage.Extension | src/main/java/ru/rutmiit/services/FileStorageService.java:44-48 | empty unless the last dot is past position 0; otherwise a proper suffix starting at that dot with no further dot |
| FileStorage.StoredFileName | src/main/java/ru/rutmiit/services/FileStorageService.java:35-61 | ".." is refused, a failed copy is a storage error, and otherwise the stored name is the generated id followed by the original's extension |
| FileStorage.StoredNameKeepsExtension | src/main/java/ru/rutmiit/services/FileStorageService.java:44-50 | with a dot-free id, the stored name has the original's extension and contains no ".." |
| FileStorage.StoreFile | src/main/java/ru/rutmiit/services/FileStorageService.java:35-61 | the directory gains exactly the stored name on success and is unchanged on failure |
| FileStorage.DeleteFile | src/main/java/ru/rutmiit/services/FileStorageService.java:67-75 | the name is removed, unless deletion fails, which is swallowed and leaves the directory unchanged |
| SubmissionService.CheckSubmission | src/main/java/ru/rutmiit/services/SubmissionServiceImpl.java:34-49 | the four checks in order: a missing assignment, then a missing student, each iff absent; acceptance implies same group and no earlier submission |
| SubmissionService.SubmissionAcceptedIff | src/main/java/ru/rutmiit/services/SubmissionServiceImpl.java:34-49 | accepted iff the assignment and student exist, share the group, and the pair has no submission |
| SubmissionService.StudentWithoutGroupRejected | src/main/java/ru/rutmiit/services/SubmissionServiceImpl.java:41-43 | a student without a group gets the wrong-group error |
| SubmissionService.ResubmissionRejected | src/main/java/ru/rutmiit/services/SubmissionServiceImpl.java:46-49 | a second submission for the same pair is refused |
| SubmissionService.NewSubmission | src/main/java/ru/rutmiit/services/SubmissionServiceImpl.java:52-65 | the corrected single-reading row: late iff its recorded time is after the deadline, ungraded, and keeping the comment as feedback |
| SubmissionService.NewSubmissionAsWritten | src/main/java/ru/rutmiit/services/SubmissionServiceImpl.java:52-65 | lateness follows the first clock reading, while the submission time is the second |
| SubmissionService.AsWrittenMissesLateSubmission | src/main/java/ru/rutmiit/services/SubmissionServiceImpl.java:52-62 | with readings 100 and 101 and deadline 100, the row is after the deadline but not late |
| SubmissionService.SingleReadingAgrees | src/main/java/ru/rutmiit/services/SubmissionServiceImpl.java:52-62 | with one reading, the code as written and the corrected row coincide |
| SubmissionService.InsertKeepsConsistent | src/main/java/ru/rutmiit/services/SubmissionServiceImpl.java:67 | a fresh id, a new pair and an existing assignment keep the store consistent |
| SubmissionService.SubmitAssignment | src/main/java/ru/rutmiit/services/SubmissionServiceImpl.java:33-71 | a failed check or refused file changes nothing; otherwise one stored file and exactly one new row, the corrected `NewSubmission` row |
| SubmissionService.CheckGrade | src/main/java/ru/rutmiit/services/SubmissionServiceImpl.java:77-94 | missing submission, then missing teacher, each iff absent; acceptance implies the teacher authored the assignment and the score is at most its maximum (the converse and the two remaining errors, under unique keys, in `GradeAcceptedIff`) |
| SubmissionService.GradeAcceptedIff | src/main/java/ru/rutmiit/services/SubmissionServiceImpl.java:77-94 | with unique keys: accepted iff the submission, the user and its assignment exist, the user is the author and the score is at most the maximum; refused as not the author iff the author is someone else; refused as too high iff the author grades above the maximum |
| SubmissionService.ForeignKeyKeepsAssignment | src/main/java/ru/rutmiit/services/SubmissionServiceImpl.java:84 | under the foreign key, grading never misses the submission's assignment |
| SubmissionService.Graded | src/main/java/ru/rutmiit/services/SubmissionServiceImpl.java:96-99 | score, feedback, grading teacher and time are replaced; id, pair, file, time handed in and lateness are kept |
| SubmissionService.RegradeOverwrites | src/main/java/ru/rutmiit/services/SubmissionServiceImpl.java:96-99 | grading twice equals grading once with the later values |
| SubmissionService.ReplaceById | src/main/java/ru/rutmiit/services/SubmissionServiceImpl.java:101 | `save` of an existing row replaces the row with that id and keeps every other row |
| SubmissionService.GradeKeepsConsistent | src/main/java/ru/rutmiit/services/SubmissionServiceImpl.java:101 | replacing a row by one with the same key and pair keeps the store consistent |
| SubmissionService.GradeSubmission | src/main/java/ru/rutmiit/services/SubmissionServiceImpl.java:76-105 | a failed check changes nothing; otherwise only the graded row is replaced |
| SubmissionService.NegativeScoreReachesStore | src/main/java/ru/rutmiit/services/SubmissionServiceImpl.java:88-94 | the service accepts a score of -5 |
| SubmissionService.GetSubmissionsForAssignment | src/main/java/ru/rutmiit/services/SubmissionServiceImpl.java:107-111 | not found iff the assignment is absent; otherwise exactly its submissions |
| SubmissionService.GetStudentSubmissions | src/main/java/ru/rutmiit/services/SubmissionServiceImpl.java:113-117 | not found iff the username is absent; otherwise exactly that user's submissions |
| SubmissionService.GetTeacherSubmissions | src/main/java/ru/rutmiit/services/SubmissionServiceImpl.java:119-123 | not found iff the username is absent; otherwise exactly the submissions to that user's assignments |
| SubmissionService.GetUncheckedSubmissionsForTeacher | src/main/java/ru/rutmiit/services/SubmissionServiceImpl.java:125-129 | not found iff the username is absent; otherwise exactly the ungraded submissions to that user's assignments |
| SubmissionService.GetSubmissionById | src/main/java/ru/rutmiit/services/SubmissionServiceImpl.java:134-137 | not found iff the id is absent; otherwise the row with that id |
| SubmissionService.UncheckedWithinTeacherList | src/main/java/ru/rutmiit/services/SubmissionServiceImpl.java:119-129 | the unchecked list fails iff the teacher list does, and is that list restricted to null scores |
| SubmissionService.NewSubmissionAwaitsGrading | src/main/java/ru/rutmiit/services/SubmissionServiceImpl.java:58-67 | a new ungraded submission appears in its assignment author's unchecked list |
| SubmissionService.GradedLeavesUncheckedList | src/main/java/ru/rutmiit/services/SubmissionServiceImpl.java:96-101 | once graded, a submission is in no unchecked list |
| AssignmentService.GetAssignmentById | src/main/java/ru/rutmiit/services/AssignmentServiceImpl.java:96-114 | not found iff the id is absent; otherwise the row with that id |
| AssignmentService.GetAssignmentsForGroup | src/main/java/ru/rutmiit/services/AssignmentServiceImpl.java:116-121 | exactly the group's assignments |
| AssignmentService.GetAssignmentsForStudent | src/main/java/ru/rutmiit/services/AssignmentServiceImpl.java:123-128 | refused iff the student has no group; otherwise exactly the group's assignments |
| AssignmentService.GetAssignmentsForTeacher | src/main/java/ru/rutmiit/services/AssignmentServiceImpl.java:130-132 | exactly the teacher's assignments |
| AssignmentService.FindExpiredAssignments | src/main/java/ru/rutmiit/services/AssignmentServiceImpl.java:149-151 | exactly the ACTIVE assignments whose deadline is before now |
| AssignmentService.Expire | src/main/java/ru/rutmiit/services/AssignmentServiceImpl.java:156-158 | the status becomes EXPIRED iff the assignment is ACTIVE and overdue; no other field changes |
| AssignmentService.ExpireIdempotent | src/main/java/ru/rutmiit/services/AssignmentServiceImpl.java:156-158 | expiring twice is expiring once |
| AssignmentService.ExpireChangesExactlyTheExpired | src/main/java/ru/rutmiit/services/AssignmentServiceImpl.java:149-158 | expiry changes an assignment iff the expired query lists it, and the query no longer lists the result |
| AssignmentService.ExpireById | src/main/java/ru/rutmiit/services/AssignmentServiceImpl.java:153-161 | only rows with the id are expired; all others are kept |
| AssignmentService.ExpireByIdIdempotent | src/main/java/ru/rutmiit/services/AssignmentServiceImpl.java:153-161 | marking twice at one time is marking once |
| AssignmentService.MarkAssignmentAsExpired | src/main/java/ru/rutmiit/services/AssignmentServiceImpl.java:153-161 | an unknown id fails and changes nothing; otherwise the table is expired by id |
| AssignmentService.ExpireAtIndex | src/main/java/ru/rutmiit/services/AssignmentServiceImpl.java:155-159 | with unique ids, expiring by id updates only the one row |
| AssignmentService.ExpireKeepsConsistent | src/main/java/ru/rutmiit/services/AssignmentServiceImpl.java:159 | saving the expired row keeps the store consistent |
| AssignmentService.AssignmentIdsKept | src/main/java/ru/rutmiit/services/AssignmentServiceImpl.java:159 | replacing a row under the same key keeps every foreign key valid |
| AssignmentService.CompletionRate | src/main/java/ru/rutmiit/services/AssignmentServiceImpl.java:213 | zero without submissions; otherwise rate times total equals 100 times graded |
| AssignmentService.CompletionRateBounds | src/main/java/ru/rutmiit/services/AssignmentServiceImpl.java:213 | the rate is between 0 and 100, and exactly 100 when all are graded |
| AssignmentService.Summarize | src/main/java/ru/rutmiit/services/AssignmentServiceImpl.java:192-221 | all zeros when empty; otherwise the counts of all, graded and late, the mean of the scores (0 if none) and the rate |
| AssignmentService.GetAssignmentStatistics | src/main/java/ru/rutmiit/services/AssignmentServiceImpl.java:187-222 | not found iff the assignment is absent; otherwise the summary of exactly its submissions |
| AssignmentService.StatisticsAgreeWithQueries | src/main/java/ru/rutmiit/services/AssignmentServiceImpl.java:202-204 | the in-memory late and graded counts equal the repository's late count and graded list |
| AssignmentService.LateGradedSubmissionScenario | src/main/java/ru/rutmiit/services/AssignmentServiceImpl.java:192-221 | one submission one tick late, graded 85, gives 1 total, 1 graded, 1 late, mean 85, rate 100 |
| AssignmentService.CheckCreate | src/main/java/ru/rutmiit/services/AssignmentServiceImpl.java:41-49 | missing user iff the username is absent; acceptance implies a teacher and an existing subject |
| AssignmentService.OnlyTeachersCreate | src/main/java/ru/rutmiit/services/AssignmentServiceImpl.java:44-49 | a non-teacher gets NotATeacher; a teacher is accepted iff the subject exists, and a teacher naming a missing subject gets SubjectNotFound |
| AssignmentService.NewAssignment | src/main/java/ru/rutmiit/services/AssignmentServiceImpl.java:54-64 | the saved assignment is ACTIVE, owned by the creator, created now, and takes the rest from the form |
| AssignmentService.AttachmentOf | src/main/java/ru/rutmiit/services/AssignmentServiceImpl.java:72-86 | a row exists iff the upload is non-empty and stored; it points at the stored name |
| AssignmentService.AttachmentRows | src/main/java/ru/rutmiit/services/AssignmentServiceImpl.java:72-86 | at most one row per upload, for the assignment |
| AssignmentService.Attachments | src/main/java/ru/rutmiit/services/AssignmentServiceImpl.java:70-89 | every row is for the assignment and uses a given row id |
| AssignmentService.NonEmptyCountSnoc | src/main/java/ru/rutmiit/services/AssignmentServiceImpl.java:72 | the number of non-empty uploads counted from the end |
| AssignmentService.AttachmentsBound | src/main/java/ru/rutmiit/services/AssignmentServiceImpl.java:70-89 | no more rows than non-empty uploads |
| AssignmentService.AttachmentsComplete | src/main/java/ru/rutmiit/services/AssignmentServiceImpl.java:70-89 | when every upload stores, each non-empty upload gets its row |
| AssignmentService.AttachmentsStep | src/main/java/ru/rutmiit/services/AssignmentServiceImpl.java:71-88 | one more upload appends its row and its stored name |
| AssignmentService.CreateAssignment | src/main/java/ru/rutmiit/services/AssignmentServiceImpl.java:40-92 | a failed check changes nothing; otherwise one assignment, its attachment rows and stored files are added |
| AssignmentService.AttachAll | src/main/java/ru/rutmiit/services/AssignmentServiceImpl.java:70-89 | the loop appends exactly the attachment rows and stored names of the uploads |
| AssignmentService.RowIdsStayFresh | src/main/java/ru/rutmiit/services/AssignmentServiceImpl.java:82 | ids already used never come back among the ids still to use |
| AssignmentService.AttachOne | src/main/java/ru/rutmiit/services/AssignmentServiceImpl.java:72-86 | one upload adds its row and stored name, or nothing when it is empty or refused; the later row ids stay unused |
| AssignmentService.InsertAssignmentKeepsConsistent | src/main/java/ru/rutmiit/services/AssignmentServiceImpl.java:66 | an assignment with a fresh id keeps the store consistent |
| AssignmentService.AppendAttachmentKeepsConsistent | src/main/java/ru/rutmiit/services/AssignmentServiceImpl.java:82 | an attachment with a fresh id for an existing assignment keeps the store consistent |
| AssignmentService.DeletedNames | src/main/java/ru/rutmiit/services/AssignmentServiceImpl.java:141-143 | a name is deleted iff some attachment has it and its deletion does not fail |
| AssignmentService.HasAssignmentAfterDelete | src/main/java/ru/rutmiit/services/AssignmentServiceImpl.java:145 | a foreign key to another assignment survives the deletion |
| AssignmentService.DeleteKeepsConsistent | src/main/java/ru/rutmiit/services/AssignmentServiceImpl.java:145 | removing an assignment with its attachments and submissions keeps the store consistent |
| AssignmentService.DeleteStoredFiles | src/main/java/ru/rutmiit/services/AssignmentServiceImpl.java:141-143 | the directory loses exactly the attachment names whose deletion does not fail |
| AssignmentService.DeleteAssignment | src/main/java/ru/rutmiit/services/AssignmentServiceImpl.java:137-147 | an unknown id changes nothing; otherwise the assignment, its attachments, its submissions and its stored files are removed, and nothing else |
| AssignmentService.DeletedAssignmentIsGone | src/main/java/ru/rutmiit/services/AssignmentServiceImpl.java:137-147 | after deletion the id is not found, and every other assignment remains |
| AuthService.CheckRegistration | src/main/java/ru/rutmiit/services/AuthService.java:27-39 | password mismatch, then email in use, then username in use; passes iff the passwords match and both are unused |
| AuthService.NewStudent | src/main/java/ru/rutmiit/services/AuthService.java:42-49 | a student without a group, with the encoded password and the form's fields |
| AuthService.Register | src/main/java/ru/rutmiit/services/AuthService.java:25-52 | a failed check changes nothing; otherwise exactly that student is appended |
| AuthService.RegistrationKeepsAccountsApart | src/main/java/ru/rutmiit/services/AuthService.java:32-39 | registration never takes an existing username or email |
| AuthService.GetUser | src/main/java/ru/rutmiit/services/AuthService.java:54-57 | not found iff the username is absent; otherwise the user with it |
| UserService.CheckNewUser | src/main/java/ru/rutmiit/services/UserServiceImpl.java:35-41 | a taken username fails with UsernameInUse; with a free username any failure is EmailInUse; passes iff the username is free and a non-null email is free |
| UserService.NewUser | src/main/java/ru/rutmiit/services/UserServiceImpl.java:43-50 | exactly the given role, group and fields, with the encoded password |
| UserService.RegisterUser | src/main/java/ru/rutmiit/services/UserServiceImpl.java:34-53 | a failed check changes nothing; otherwise exactly that user is appended |
| UserService.NullEmailSkipsEmailCheck | src/main/java/ru/rutmiit/services/UserServiceImpl.java:39 | without an email only the username decides |
| UserService.GetAllStudents | src/main/java/ru/rutmiit/services/UserServiceImpl.java:20-22 | exactly the students |
| UserService.GetAllTeachers | src/main/java/ru/rutmiit/services/UserServiceImpl.java:55-57 | exactly the teachers |
| UserService.CountByRoleMatchesLists | src/main/java/ru/rutmiit/services/UserServiceImpl.java:59-61 | the role counts equal the lengths of the student and teacher lists |
| UserService.FindGroups | src/main/java/ru/rutmiit/services/UserServiceImpl.java:63-65 | every group some user belongs to, each once |
| UserStore.InsertUserKeepsConsistent | src/main/java/ru/rutmiit/services/UserServiceImpl.java:52 | a user with fresh id, username and non-null email keeps the user table consistent |
| SubjectService.GetSubjectById | src/main/java/ru/rutmiit/services/SubjectService.java:20-23 | not found iff the id is absent; otherwise the subject with it |
| SubjectService.CreateSubject | src/main/java/ru/rutmiit/services/SubjectService.java:25-35 | a taken name fails and changes nothing; otherwise exactly the new subject is appended |
| SubjectService.DeleteSubject | src/main/java/ru/rutmiit/services/SubjectService.java:37-40 | an unknown id fails and changes nothing; otherwise exactly that subject is removed |
| SubjectService.CreateThenExists | src/main/java/ru/rutmiit/services/SubjectService.java:25-35 | after creation the name is taken |
| SubjectService.DeletedSubjectIsGone | src/main/java/ru/rutmiit/services/SubjectService.java:37-40 | after deletion the id is not found, and every other subject remains |
| SubmissionController.ShowSubmitForm | src/main/java/ru/rutmiit/web/SubmissionController.java:32-55 | back to the list iff the assignment or user is missing; the form only for a student of the assignment's group (the converse, under unique keys, is `SubmitFormShownIff`) |
| SubmissionController.SubmitFormShownIff | src/main/java/ru/rutmiit/web/SubmissionController.java:37-49 | with unique keys, the form is shown iff the user is an existing student of the assignment's group |
| SubmissionController.SubmitFormAgreesWithService | src/main/java/ru/rutmiit/web/SubmissionController.java:43-45 | whoever sees the form passes every service check except possibly the duplicate check |
| SubmissionController.SubmitAssignment | src/main/java/ru/rutmiit/web/SubmissionController.java:57-81 | an invalid form changes nothing and goes back; otherwise success goes to the list with exactly the new submission row appended and its file stored, and failure goes back with the tables and the upload directory unchanged |
| SubmissionController.ShowGradeForm | src/main/java/ru/rutmiit/web/SubmissionController.java:83-107 | the form only for the teacher who authored the submission's assignment (both directions, and the redirect to the list, under unique keys in `GradeFormOutcomes`) |
| SubmissionController.GradeFormOutcomes | src/main/java/ru/rutmiit/web/SubmissionController.java:89-106 | with unique keys, back to the list iff the submission, the user or its assignment is missing; the form iff the user is a teacher who authored the submission's assignment |
| SubmissionController.GradeFormAgreesWithService | src/main/java/ru/rutmiit/web/SubmissionController.java:95-97 | whoever sees the grade form passes every service check except the maximum score |
| SubmissionController.Utf16Length | src/main/java/ru/rutmiit/dto/GradeSubmissionDto.java:12-13 | the length `@Size` measures: between the character count and twice it, equal to it iff every character is in the Basic Multilingual Plane, and twice it when none is |
| SubmissionController.SupplementaryFeedbackRefused | src/main/java/ru/rutmiit/dto/GradeSubmissionDto.java:12-13 | 600 characters outside the Basic Multilingual Plane exceed the 1000-unit limit, so the grade form is refused |
| SubmissionController.GradeSubmission | src/main/java/ru/rutmiit/web/SubmissionController.java:109-134 | an invalid form changes nothing; success replaces the submission's row by its graded version and goes to the assignment's details, and failure goes back unchanged |
| SubmissionController.ShowMySubmissions | src/main/java/ru/rutmiit/web/SubmissionController.java:136-158 | home iff the user is missing; a student sees their own, a teacher those to their assignments, others none |
| SubmissionController.OtherRolesSeeNothing | src/main/java/ru/rutmiit/web/SubmissionController.java:144-152 | an administrator or role-less user sees the page with no list |
| AssignmentController.AssignmentDetails | src/main/java/ru/rutmiit/web/AssignmentController.java:35-68 | back to the list iff the assignment or user is missing; denied only for a student of another group or a teacher who is not the author |
| AssignmentController.AdminSeesEveryAssignment | src/main/java/ru/rutmiit/web/AssignmentController.java:44-49 | an administrator sees every existing assignment |
| AssignmentController.SubmitterMaySeeDetails | src/main/java/ru/rutmiit/web/AssignmentController.java:43-49 | a student shown the submit form may also see the details page |

## Left out

- Spring wiring, caching annotations, logging, flash attributes and model attributes are not modelled. The controllers are reduced to the view or redirect they return and the store changes they cause.
- Transactions and concurrent requests are not modelled. Every operation runs alone and atomically. The unique (assignment, student) constraint is an invariant of the store rather than a database error raised under a race.
- The JPA relations are modelled as id columns. `Hibernate.initialize` and lazy loading have no observable effect here.
- The source's tables are maps by id in spirit. The model keeps them as sequences with unique keys. Apart from `getAverageScoresByStudent`, whose descending order the model states, the queries have no ORDER BY and promise no order, so the other list queries' contracts state membership only and the order of the model's lists is not a promise.
- `StringUtils.cleanPath` is treated as already applied to `Upload.originalName`. A null original filename is not modelled.
- The UUID generator, the clock, the password encoder and the outcome of the file-system calls are parameters; their own behaviour is not modelled.
- `Files.copy` with REPLACE_EXISTING over a name that already exists is not distinguished; the directory is a set of names.
- `getSubmissionStatistics` is a stub that returns null and is not modelled.
- `getAllAssignmentsPaginated`, `convertToShowDto`, `findAllByIds`, `getAllSubjects`, `getFilePath` and the paged and unused repository queries (`findBySubject`, `findByTeacherAndStatus`, `findByGroup` by page, `findByGroupAndRole`) are not modelled. They are plain reads or DTO copies with no rule of their own.
- Floating-point arithmetic and `String.format` rounding are not modelled. Averages and rates are exact reals.
- `Long` and `int` overflow are not modelled. Counts and scores are unbounded integers.
- Validation annotations on the DTOs are modelled only where a handler depends on them: `SubmitFormValid` and `GradeFormValid`.
- The JPA cascade from a subject to its assignments (`src/main/java/ru/rutmiit/models/entities/Subject.java:21`) is not modelled. `DeleteSubject` removes only the subject row, so in the model the assignments of a deleted subject keep a dangling `subjectId`.
- `deleteAssignment` relies on cascades for attachments and submissions. The submissions cascade is declared on the assignment entity (`models/entities/Assignment.java:49-51`). The attachment collection that `deleteAssignment` reads is not declared on that entity, so removing the attachment rows together with the assignment is assumed.
- The assignment entity file lacks several fields the services use: group, maximum score, creation time, subject and attachments. The model follows the services and gives `Entities.Assignment` those fields. The entity's `criteria` and `assignedStudents` are read by none of the modelled operations and are left out.
- A null list of uploads in `createAssignment` is modelled as the empty list in `AssignmentService.Draft`.
- The user entity file has no group field, and it declares email, age and role NOT NULL (`src/main/java/ru/rutmiit/models/entities/User.java:25-36`). The services store a group, and the administrative registration stores a user with no age and possibly no email (`src/main/java/ru/rutmiit/services/UserServiceImpl.java:43-52`). The model follows the services: `Entities.User` has a group, and `UserService.RegisterUser` succeeds with a null age and email. The database's refusal of such a row is not modelled.
- SubmissionService.SubmitAssignment: stores the corrected single-reading row `NewSubmission`, not the source's row, whose submission time is a second clock reading. `NewSubmissionAsWritten` is the row as written (see Findings).
- A registration form with a null email is not modelled. `AuthService.Registration.email` is a string.
- A submission whose assignment has a null group would throw a NullPointerException. The model gives every assignment a group.
- SubmissionService.CheckGrade: does not reject a negative score, because the service itself does not. Only the form's lower bound in `SubmissionController.GradeFormValid` does, and `SubmissionService.NegativeScoreReachesStore` shows the service accepting -5.
- SubmissionRepository.ScoresOf: states only the number of scores, not their values. `AverageScoreOfStudent` and `Summarize` relate the mean to this list.
- AssignmentService.Attachments: states the rows' owner and ids. How many rows there are is stated separately by `AttachmentsBound` and `AttachmentsComplete`.

## Findings

| source | as written | input that shows it | evidently intended | confidence | as-written member | corrected member |
|---|---|---|---|---|---|---|
| src/main/java/ru/rutmiit/services/SubmissionServiceImpl.java:52-62 | lateness uses one clock reading (line 52); the saved submission time is a second reading (line 62), taken after the file is stored | deadline 100; the first reading is 100 and the second is 101: the row says it was handed in at 101, after the deadline, yet is not late | one reading for both, so a row is late exactly when its recorded time is after the deadline | medium, not executed | SubmissionService.AsWrittenMissesLateSubmission | SubmissionService.NewSubmission |
