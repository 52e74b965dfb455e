/**
 * The assignment lifecycle: creation with best-effort attachments, deletion, the lazy
 * ACTIVE to EXPIRED transition, the group and teacher listings, and the per-assignment
 * statistics.
 */
module AssignmentService {
  import opened Results
  import opened Entities
  import opened Seqs
  import opened Store
  import FileStorage
  import AssignmentRepository
  import SubmissionRepository
  import UserRepository
  import SubjectRepository
  import SubmissionService

  // ---------------------------------------------------------------- lookups and listings

  /** `getAssignmentById`. */
  function GetAssignmentById(asgs: seq<Assignment>, id: string): (r: Result<Assignment>)
    ensures r.Err? <==> forall j :: 0 <= j < |asgs| ==> asgs[j].id != id
    ensures r.Err? ==> r.error == AssignmentNotFound
    ensures r.Ok? ==> r.value in asgs && r.value.id == id
  {
    match AssignmentRepository.FindById(asgs, id)
    case None => Err(AssignmentNotFound)
    case Some(a) => Ok(a)
  }

  /** `getAssignmentsForGroup`. */
  function GetAssignmentsForGroup(asgs: seq<Assignment>, group: string): (r: seq<Assignment>)
    ensures forall a :: a in r <==> a in asgs && a.group == group
  {
    AssignmentRepository.FindByGroup(asgs, group)
  }

  /** `getAssignmentsForStudent`: refused for a student without a group. */
  function GetAssignmentsForStudent(asgs: seq<Assignment>, student: User): (r: Result<seq<Assignment>>)
    ensures r.Err? <==> student.group.None?
    ensures r.Err? ==> r.error == StudentWithoutGroup
    ensures r.Ok? ==> forall a :: a in r.value <==> a in asgs && Some(a.group) == student.group
  {
    match student.group
    case None => Err(StudentWithoutGroup)
    case Some(g) => Ok(AssignmentRepository.FindByGroup(asgs, g))
  }

  /** `getAssignmentsForTeacher`. */
  function GetAssignmentsForTeacher(asgs: seq<Assignment>, teacher: User): (r: seq<Assignment>)
    ensures forall a :: a in r <==> a in asgs && a.teacherId == teacher.id
  {
    AssignmentRepository.FindByTeacher(asgs, teacher.id)
  }

  /** `findExpiredAssignments` at the current time. */
  function FindExpiredAssignments(asgs: seq<Assignment>, now: int): (r: seq<Assignment>)
    ensures forall a :: a in r <==> a in asgs && a.status == Active && a.deadline < now
  {
    AssignmentRepository.FindExpired(asgs, now)
  }

  // ---------------------------------------------------------------- expiry

  /** The assignment is active and its deadline is strictly in the past. */
  predicate IsDue(a: Assignment, now: int)
  {
    a.status == Active && a.deadline < now
  }

  /** What `markAssignmentAsExpired` does to one assignment. */
  function Expire(a: Assignment, now: int): (r: Assignment)
    ensures r.status == (if IsDue(a, now) then Expired else a.status)
    ensures r.(status := a.status) == a
  {
    if IsDue(a, now) then a.(status := Expired) else a
  }

  /** Expiring twice is expiring once. */
  lemma ExpireIdempotent(a: Assignment, now: int)
    ensures Expire(Expire(a, now), now) == Expire(a, now)
  {
  }

  /** Expiry changes exactly the assignments `findExpiredAssignments` reports. */
  lemma ExpireChangesExactlyTheExpired(asgs: seq<Assignment>, a: Assignment, now: int)
    requires a in asgs
    ensures Expire(a, now) != a <==> a in FindExpiredAssignments(asgs, now)
    ensures Expire(a, now) !in FindExpiredAssignments([Expire(a, now)], now)
  {
  }

  /** The table after expiring the row with key `id`; every other row is untouched. */
  function ExpireById(asgs: seq<Assignment>, id: string, now: int): (r: seq<Assignment>)
    ensures |r| == |asgs|
    ensures forall j :: 0 <= j < |asgs| ==> r[j] == (if asgs[j].id == id then Expire(asgs[j], now) else asgs[j])
  {
    if |asgs| == 0 then []
    else [if asgs[0].id == id then Expire(asgs[0], now) else asgs[0]] + ExpireById(asgs[1..], id, now)
  }

  /** Marking the same assignment twice at the same time has the effect of marking it once. */
  lemma {:induction false} ExpireByIdIdempotent(asgs: seq<Assignment>, id: string, now: int)
    ensures ExpireById(ExpireById(asgs, id, now), id, now) == ExpireById(asgs, id, now)
  {
    var once := ExpireById(asgs, id, now);
    forall j | 0 <= j < |asgs| ensures ExpireById(once, id, now)[j] == once[j] {
      if asgs[j].id == id {
        ExpireIdempotent(asgs[j], now);
      }
    }
  }

  /**
   * `markAssignmentAsExpired`: an unknown id fails; otherwise the assignment becomes
   * EXPIRED if it is active and past its deadline, and every other row stays as it was.
   */
  method MarkAssignmentAsExpired(db: Database, id: string, now: int) returns (r: Result<()>)
    requires db.Valid()
    modifies db`assignments
    ensures db.Valid()
    ensures GetAssignmentById(old(db.assignments), id).Err? ==>
              r == Err(AssignmentNotFound) && db.assignments == old(db.assignments)
    ensures GetAssignmentById(old(db.assignments), id).Ok? ==>
              r == Ok(()) && db.assignments == ExpireById(old(db.assignments), id, now)
  {
    var found := FindIndex(db.assignments, AssignmentRepository.HasId(id));
    if found.None? {
      return Err(AssignmentNotFound);
    }
    var i := found.value;
    ExpireAtIndex(db.assignments, i, now);
    ExpireKeepsConsistent(db.users, db.subjects, db.assignments, db.attachments, db.submissions, i, now);
    var a := db.assignments[i];
    if a.status == Active && a.deadline < now {
      db.assignments := db.assignments[i := a.(status := Expired)];
    }
    r := Ok(());
  }

  /** With unique keys, expiring by key is expiring the one row that carries it. */
  lemma ExpireAtIndex(asgs: seq<Assignment>, i: nat, now: int)
    requires UniqueKeys(asgs, AssignmentId) && i < |asgs|
    ensures ExpireById(asgs, asgs[i].id, now) == asgs[i := Expire(asgs[i], now)]
  {
    forall j | 0 <= j < |asgs| && j != i ensures asgs[j].id != asgs[i].id {
      assert AssignmentId(asgs[j]) != AssignmentId(asgs[i]);
    }
  }

  lemma ExpireKeepsConsistent(users: seq<User>, subjects: seq<Subject>, asgs: seq<Assignment>,
                              files: seq<AssignmentFile>, subs: seq<Submission>, i: nat, now: int)
    requires Consistent(users, subjects, asgs, files, subs) && i < |asgs|
    ensures Consistent(users, subjects, asgs[i := Expire(asgs[i], now)], files, subs)
  {
    var a := Expire(asgs[i], now);
    UniqueKeysUpdate(asgs, i, a, AssignmentId);
    AssignmentIdsKept(asgs, i, a);
  }

  /** Replacing an assignment row by one with the same key keeps every foreign key valid. */
  lemma AssignmentIdsKept(asgs: seq<Assignment>, i: nat, a: Assignment)
    requires i < |asgs| && a.id == asgs[i].id
    ensures forall id :: HasAssignment(asgs, id) ==> HasAssignment(asgs[i := a], id)
  {
    forall id | HasAssignment(asgs, id) ensures HasAssignment(asgs[i := a], id) {
      var j :| 0 <= j < |asgs| && asgs[j].id == id;
      assert asgs[i := a][j].id == id;
    }
  }

  // ---------------------------------------------------------------- statistics

  /** The figures of `getAssignmentStatistics`. */
  datatype AssignmentStatistics = AssignmentStatistics(
    total: nat, graded: nat, late: nat, average: real, completionRate: real)

  /** Percentage of graded submissions, zero when there are none at all. */
  function CompletionRate(graded: nat, total: nat): (r: real)
    ensures total == 0 ==> r == 0.0
    ensures total > 0 ==> r * (total as real) == (graded * 100) as real
  {
    if total > 0 then (graded * 100) as real / (total as real) else 0.0
  }

  /** The rate is a percentage: between 0 and 100, and exactly 100 when everything is graded. */
  lemma CompletionRateBounds(graded: nat, total: nat)
    requires graded <= total
    ensures 0.0 <= CompletionRate(graded, total) <= 100.0
    ensures 0 < total == graded ==> CompletionRate(graded, total) == 100.0
  {
    if total > 0 {
      var t := total as real;
      var r := CompletionRate(graded, total);
      assert r * t <= 100.0 * t;
    }
  }

  /**
   * The statistics over one assignment's submissions: every figure zero when there are
   * none; otherwise the count, the graded and late counts (a missing lateness flag is not
   * late), the mean score (zero when nothing is graded) and the completion rate.
   */
  function Summarize(subs: seq<Submission>): (r: AssignmentStatistics)
    ensures |subs| == 0 ==> r == AssignmentStatistics(0, 0, 0, 0.0, 0.0)
    ensures r.total == |subs|
    ensures r.graded == |Filter(subs, IsGraded)| && r.late == |Filter(subs, IsLate)|
    ensures r.graded <= r.total && r.late <= r.total
    ensures r.graded == 0 ==> r.average == 0.0
    ensures r.graded > 0 ==> |SubmissionRepository.ScoresOf(subs)| == r.graded &&
                             r.average == SubmissionRepository.Mean(SubmissionRepository.ScoresOf(subs))
    ensures r.completionRate == CompletionRate(r.graded, r.total)
  {
    if |subs| == 0 then AssignmentStatistics(0, 0, 0, 0.0, 0.0)
    else
      var graded := Count(subs, IsGraded);
      var late := Count(subs, IsLate);
      CountIsFilterLength(subs, IsGraded);
      CountIsFilterLength(subs, IsLate);
      var average := if graded > 0 then SubmissionRepository.Mean(SubmissionRepository.ScoresOf(subs)) else 0.0;
      AssignmentStatistics(|subs|, graded, late, average, CompletionRate(graded, |subs|))
  }

  /** `getAssignmentStatistics`: the summary of the submissions of an existing assignment. */
  function GetAssignmentStatistics(asgs: seq<Assignment>, subs: seq<Submission>, id: string)
    : (r: Result<AssignmentStatistics>)
    ensures r.Err? <==> forall j :: 0 <= j < |asgs| ==> asgs[j].id != id
    ensures r.Err? ==> r.error == AssignmentNotFound
    ensures r.Ok? ==> r == Ok(Summarize(SubmissionRepository.FindByAssignment(subs, id)))
  {
    match AssignmentRepository.FindById(asgs, id)
    case None => Err(AssignmentNotFound)
    case Some(a) => Ok(Summarize(SubmissionRepository.FindByAssignment(subs, a.id)))
  }

  /** The in-memory counts agree with the repository's graded query and late-count query. */
  lemma StatisticsAgreeWithQueries(asgs: seq<Assignment>, subs: seq<Submission>, id: string)
    requires GetAssignmentStatistics(asgs, subs, id).Ok?
    ensures GetAssignmentStatistics(asgs, subs, id).value.late == SubmissionRepository.CountLateByAssignment(subs, id)
    ensures GetAssignmentStatistics(asgs, subs, id).value.graded == |SubmissionRepository.FindGradedByAssignment(subs, id)|
  {
    SubmissionRepository.LateCountIsLateSubmissions(subs, id);
    SubmissionRepository.GradedAndUngradedPartition(subs, id);
  }

  /**
   * One submission handed in a second after the deadline and graded 85 out of 100 gives
   * one submission, one graded, one late, a mean of 85 and a completion rate of 100.
   */
  lemma LateGradedSubmissionScenario(deadline: int)
    ensures var a := Assignment("a", "Essay", "", 0, deadline, 100, Active, "t", "s", "g");
            var u := User("u", "student", "pw", None, "Student", None, Some(Student), Some("g"));
            var s := SubmissionService.NewSubmission("s1", a, u, "f", None, deadline + 1);
            var g := SubmissionService.Graded(s, 85, None, "t", deadline + 2);
            IsLate(s) && s.score.None? && Summarize([g]) == AssignmentStatistics(1, 1, 1, 85.0, 100.0)
  {
    var a := Assignment("a", "Essay", "", 0, deadline, 100, Active, "t", "s", "g");
    var u := User("u", "student", "pw", None, "Student", None, Some(Student), Some("g"));
    var s := SubmissionService.NewSubmission("s1", a, u, "f", None, deadline + 1);
    var g := SubmissionService.Graded(s, 85, None, "t", deadline + 2);
    assert [g][1..] == [];
    assert SubmissionRepository.ScoresOf([g]) == [85];
    assert Sum([85]) == 85 by { assert [85][1..] == []; }
    assert SubmissionRepository.Mean([85]) == 85.0;
    assert Count([g], IsGraded) == 1;
    assert Count([g], IsLate) == 1;
  }

  // ---------------------------------------------------------------- creation

  /** The fields of the creation form, with the uploaded files (none when the form had no list). */
  datatype Draft = Draft(title: string, description: string, deadline: int, maxScore: int,
                         subjectId: string, group: string, files: seq<Upload>)

  /**
   * The checks of `createAssignment`, in source order: the user exists, is a teacher, and
   * the subject exists.
   */
  function CheckCreate(users: seq<User>, subjects: seq<Subject>, username: string, subjectId: string)
    : (r: Result<(User, Subject)>)
    ensures r.Ok? || r.error in {TeacherNotFound, NotATeacher, SubjectNotFound}
    ensures r == Err(TeacherNotFound) <==> forall j :: 0 <= j < |users| ==> users[j].username != username
    ensures r == Err(SubjectNotFound) ==> forall j :: 0 <= j < |subjects| ==> subjects[j].id != subjectId
    ensures r.Ok? ==> r.value.0 in users && r.value.0.username == username && r.value.0.IsTeacher()
    ensures r.Ok? ==> r.value.1 in subjects && r.value.1.id == subjectId
  {
    match UserRepository.FindByUsername(users, username)
    case None => Err(TeacherNotFound)
    case Some(u) =>
      if !u.IsTeacher() then Err(NotATeacher)
      else
        match SubjectRepository.FindById(subjects, subjectId)
        case None => Err(SubjectNotFound)
        case Some(s) => Ok((u, s))
  }

  /**
   * Only an existing teacher can create, whatever their other attributes; a teacher naming
   * a missing subject is refused for the subject.
   */
  lemma OnlyTeachersCreate(users: seq<User>, subjects: seq<Subject>, u: User, subjectId: string)
    requires UniqueKeys(users, Username) && u in users
    ensures !u.IsTeacher() ==> CheckCreate(users, subjects, u.username, subjectId) == Err(NotATeacher)
    ensures u.IsTeacher() ==>
      (CheckCreate(users, subjects, u.username, subjectId).Ok? <==>
       exists j :: 0 <= j < |subjects| && subjects[j].id == subjectId)
    ensures u.IsTeacher() && (forall j :: 0 <= j < |subjects| ==> subjects[j].id != subjectId) ==>
      CheckCreate(users, subjects, u.username, subjectId) == Err(SubjectNotFound)
  {
    var f := UserRepository.FindByUsername(users, u.username);
    var k :| 0 <= k < |users| && users[k] == f.value;
    var l :| 0 <= l < |users| && users[l] == u;
    assert Username(users[k]) == Username(users[l]);
  }

  /** The saved assignment: active, owned by the creator, created now, the rest from the form. */
  function NewAssignment(id: string, draft: Draft, teacher: User, subject: Subject, now: int): (r: Assignment)
    ensures r.id == id && r.status == Active && r.teacherId == teacher.id && r.createdAt == now
    ensures r.subjectId == subject.id && r.group == draft.group && r.title == draft.title
    ensures r.description == draft.description && r.deadline == draft.deadline && r.maxScore == draft.maxScore
  {
    Assignment(id, draft.title, draft.description, now, draft.deadline, draft.maxScore, Active,
               teacher.id, subject.id, draft.group)
  }

  /**
   * The attachment row one upload yields: none for an empty file or one the store refuses
   * (the failure is caught), otherwise a row pointing at the stored name.
   */
  function AttachmentOf(assignmentId: string, file: Upload, rowId: string): (r: Option<AssignmentFile>)
    ensures r.Some? <==> !file.empty && FileStorage.StoredFileName(file).Ok?
    ensures r.Some? ==> r.value == AssignmentFile(rowId, assignmentId, FileStorage.StoredFileName(file).value, file.originalName)
  {
    if file.empty then None
    else match FileStorage.StoredFileName(file)
      case Err(_) => None
      case Ok(name) => Some(AssignmentFile(rowId, assignmentId, name, file.originalName))
  }

  /** The rows one upload adds: zero or one. */
  function AttachmentRows(assignmentId: string, file: Upload, rowId: string): (r: seq<AssignmentFile>)
    ensures |r| <= 1
    ensures forall f :: f in r ==> f.assignmentId == assignmentId && f.id == rowId
  {
    match AttachmentOf(assignmentId, file, rowId)
    case None => []
    case Some(row) => [row]
  }

  /** The name one upload adds to the upload directory: none if it is empty or refused. */
  function StoredNameOf(file: Upload): set<string>
  {
    if !file.empty && FileStorage.StoredFileName(file).Ok? then {FileStorage.StoredFileName(file).value} else {}
  }

  /** The attachment rows for a list of uploads, in upload order. */
  function Attachments(assignmentId: string, files: seq<Upload>, rowIds: seq<string>): (r: seq<AssignmentFile>)
    requires |rowIds| == |files|
    ensures forall f :: f in r ==> f.assignmentId == assignmentId && f.id in rowIds
  {
    if |files| == 0 then []
    else
      var n := |files| - 1;
      Attachments(assignmentId, files[..n], rowIds[..n]) + AttachmentRows(assignmentId, files[n], rowIds[n])
  }

  /** The names the upload directory gains from a list of uploads. */
  function StoredNames(files: seq<Upload>): set<string>
  {
    if |files| == 0 then {}
    else
      var n := |files| - 1;
      StoredNames(files[..n]) + StoredNameOf(files[n])
  }

  function NonEmptyCount(files: seq<Upload>): nat
  {
    if |files| == 0 then 0 else (if files[0].empty then 0 else 1) + NonEmptyCount(files[1..])
  }

  lemma {:induction false} NonEmptyCountSnoc(files: seq<Upload>)
    requires |files| > 0
    ensures NonEmptyCount(files) == NonEmptyCount(files[..|files| - 1]) + (if files[|files| - 1].empty then 0 else 1)
  {
    if |files| > 1 {
      NonEmptyCountSnoc(files[1..]);
      assert files[1..][..|files| - 2] == files[..|files| - 1][1..];
    }
  }

  /** No more attachment rows than non-empty uploads. */
  lemma {:induction false} AttachmentsBound(assignmentId: string, files: seq<Upload>, rowIds: seq<string>)
    requires |rowIds| == |files|
    ensures |Attachments(assignmentId, files, rowIds)| <= NonEmptyCount(files)
  {
    if |files| > 0 {
      var n := |files| - 1;
      AttachmentsBound(assignmentId, files[..n], rowIds[..n]);
      NonEmptyCountSnoc(files);
    }
  }

  /** When every upload is stored, every non-empty upload gets its row. */
  lemma {:induction false} AttachmentsComplete(assignmentId: string, files: seq<Upload>, rowIds: seq<string>)
    requires |rowIds| == |files|
    requires forall k :: 0 <= k < |files| ==> FileStorage.StoredFileName(files[k]).Ok?
    ensures |Attachments(assignmentId, files, rowIds)| == NonEmptyCount(files)
  {
    if |files| > 0 {
      var n := |files| - 1;
      AttachmentsComplete(assignmentId, files[..n], rowIds[..n]);
      NonEmptyCountSnoc(files);
    }
  }

  /**
   * `createAssignment`: after the checks the assignment is saved, then each non-empty
   * upload is stored and recorded; an upload that fails is skipped and creation still
   * succeeds. A failed check changes nothing.
   */
  method CreateAssignment(db: Database, draft: Draft, username: string, newId: string,
                          rowIds: seq<string>, now: int) returns (r: Result<Assignment>)
    requires db.Valid()
    requires forall a :: a in db.assignments ==> a.id != newId
    requires |rowIds| == |draft.files| && NoDuplicates(rowIds)
    requires forall f :: f in db.attachments ==> f.id !in rowIds
    modifies db`assignments, db`attachments, db`uploads
    ensures db.Valid()
    ensures var c := CheckCreate(db.users, db.subjects, username, draft.subjectId);
            c.Err? ==> && r == Err(c.error) && db.assignments == old(db.assignments)
                       && db.attachments == old(db.attachments) && db.uploads == old(db.uploads)
    ensures var c := CheckCreate(db.users, db.subjects, username, draft.subjectId);
            c.Ok? ==> && r == Ok(NewAssignment(newId, draft, c.value.0, c.value.1, now))
                      && db.assignments == old(db.assignments) + [r.value]
                      && db.attachments == old(db.attachments) + Attachments(newId, draft.files, rowIds)
                      && db.uploads == old(db.uploads) + StoredNames(draft.files)
  {
    var c := CheckCreate(db.users, db.subjects, username, draft.subjectId);
    if c.Err? {
      return Err(c.error);
    }
    var a := NewAssignment(newId, draft, c.value.0, c.value.1, now);
    InsertAssignmentKeepsConsistent(db.users, db.subjects, db.assignments, db.attachments, db.submissions, a);
    db.assignments := db.assignments + [a];
    assert db.assignments[|db.assignments| - 1].id == newId;
    AttachAll(db, newId, draft.files, rowIds);
    r := Ok(a);
  }

  /** The upload loop of `createAssignment`, for an assignment already saved. */
  method AttachAll(db: Database, assignmentId: string, files: seq<Upload>, rowIds: seq<string>)
    requires db.Valid()
    requires HasAssignment(db.assignments, assignmentId)
    requires |rowIds| == |files| && NoDuplicates(rowIds)
    requires FreshRowIds(db.attachments, rowIds)
    modifies db`attachments, db`uploads
    ensures db.Valid()
    ensures db.attachments == old(db.attachments) + Attachments(assignmentId, files, rowIds)
    ensures db.uploads == old(db.uploads) + StoredNames(files)
  {
    var i := 0;
    while i < |files|
      invariant 0 <= i <= |files|
      invariant db.attachments == old(db.attachments) + Attachments(assignmentId, files[..i], rowIds[..i])
      invariant db.uploads == old(db.uploads) + StoredNames(files[..i])
      invariant FreshRowIds(db.attachments, rowIds[i..])
      invariant db.Valid()
    {
      AttachmentsStep(assignmentId, files, rowIds, i);
      AttachOne(db, assignmentId, files, rowIds, i);
      i := i + 1;
    }
    assert files[..|files|] == files;
    assert rowIds[..|rowIds|] == rowIds;
  }

  /** One more upload adds its row and its stored name at the end. */
  lemma AttachmentsStep(assignmentId: string, files: seq<Upload>, rowIds: seq<string>, i: nat)
    requires |rowIds| == |files| && i < |files|
    ensures Attachments(assignmentId, files[..i + 1], rowIds[..i + 1]) ==
            Attachments(assignmentId, files[..i], rowIds[..i]) + AttachmentRows(assignmentId, files[i], rowIds[i])
    ensures StoredNames(files[..i + 1]) == StoredNames(files[..i]) + StoredNameOf(files[i])
  {
    assert files[..i + 1][..i] == files[..i];
    assert rowIds[..i + 1][..i] == rowIds[..i];
  }

  /** No attachment row uses any of `ids`. */
  ghost predicate FreshRowIds(atts: seq<AssignmentFile>, ids: seq<string>)
  {
    forall f :: f in atts ==> f.id !in ids
  }

  /** Ids consumed so far never reappear among the ids still to use. */
  lemma RowIdsStayFresh(before: seq<AssignmentFile>, after: seq<AssignmentFile>, rowIds: seq<string>, i: nat)
    requires i < |rowIds| && NoDuplicates(rowIds)
    requires FreshRowIds(before, rowIds[i..])
    requires forall f :: f in after ==> f in before || f.id == rowIds[i]
    ensures FreshRowIds(after, rowIds[i + 1..])
  {
  }

  /**
   * The body of the upload loop for upload `i`: store it and record it under `rowIds[i]` if
   * it is non-empty, or skip it. The row ids after `i` stay unused.
   */
  method AttachOne(db: Database, assignmentId: string, files: seq<Upload>, rowIds: seq<string>, i: nat)
    requires db.Valid()
    requires HasAssignment(db.assignments, assignmentId)
    requires |rowIds| == |files| && i < |files| && NoDuplicates(rowIds)
    requires FreshRowIds(db.attachments, rowIds[i..])
    modifies db`attachments, db`uploads
    ensures db.Valid()
    ensures db.attachments == old(db.attachments) + AttachmentRows(assignmentId, files[i], rowIds[i])
    ensures db.uploads == old(db.uploads) + StoredNameOf(files[i])
    ensures FreshRowIds(db.attachments, rowIds[i + 1..])
  {
    var file, rowId := files[i], rowIds[i];
    assert rowIds[i..][0] == rowId;
    RowIdsStayFresh(db.attachments, db.attachments + AttachmentRows(assignmentId, file, rowId), rowIds, i);
    if !file.empty {
      var stored := FileStorage.StoreFile(db, file);
      if stored.Ok? {
        var row := AssignmentFile(rowId, assignmentId, stored.value, file.originalName);
        AppendAttachmentKeepsConsistent(db, row);
        db.attachments := db.attachments + [row];
      }
    }
  }

  lemma InsertAssignmentKeepsConsistent(users: seq<User>, subjects: seq<Subject>, asgs: seq<Assignment>,
                                        files: seq<AssignmentFile>, subs: seq<Submission>, a: Assignment)
    requires Consistent(users, subjects, asgs, files, subs)
    requires forall b :: b in asgs ==> b.id != a.id
    ensures Consistent(users, subjects, asgs + [a], files, subs)
  {
    UniqueKeysAppend(asgs, a, AssignmentId);
    forall id | HasAssignment(asgs, id) ensures HasAssignment(asgs + [a], id) {
      var j :| 0 <= j < |asgs| && asgs[j].id == id;
      assert (asgs + [a])[j] == asgs[j];
    }
  }

  /** One more attachment row, with a fresh id, for an existing assignment. */
  lemma AppendAttachmentKeepsConsistent(db: Database, row: AssignmentFile)
    requires db.Valid()
    requires HasAssignment(db.assignments, row.assignmentId)
    requires forall f :: f in db.attachments ==> f.id != row.id
    ensures Consistent(db.users, db.subjects, db.assignments, db.attachments + [row], db.submissions)
  {
    UniqueKeysAppend(db.attachments, row, AssignmentFileId);
    var t := db.attachments + [row];
    forall k | 0 <= k < |t| ensures HasAssignment(db.assignments, t[k].assignmentId) {
      if k < |db.attachments| {
        assert t[k] == db.attachments[k];
      }
    }
  }

  // ---------------------------------------------------------------- deletion

  function AttachedTo(id: string): AssignmentFile -> bool { (f: AssignmentFile) => f.assignmentId == id }
  function NotAttachedTo(id: string): AssignmentFile -> bool { (f: AssignmentFile) => f.assignmentId != id }
  function NotSubmittedTo(id: string): Submission -> bool { (s: Submission) => s.assignmentId != id }

  /** The stored names a deletion loop removes: those whose deletion does not fail. */
  function DeletedNames(files: seq<AssignmentFile>, failing: set<string>): (r: set<string>)
    ensures forall n :: n in r <==> n !in failing && exists f :: f in files && f.filePath == n
  {
    if |files| == 0 then {}
    else
      var k := |files| - 1;
      var rest := DeletedNames(files[..k], failing);
      assert forall f :: f in files <==> f in files[..k] || f == files[k] by {
        assert files == files[..k] + [files[k]];
      }
      rest + (if files[k].filePath in failing then {} else {files[k].filePath})
  }

  /** A foreign key to another assignment survives the deletion. */
  lemma HasAssignmentAfterDelete(asgs: seq<Assignment>, id: string, target: string)
    requires HasAssignment(asgs, target) && target != id
    ensures HasAssignment(Filter(asgs, KeyIsNot(AssignmentId, id)), target)
  {
    var j :| 0 <= j < |asgs| && asgs[j].id == target;
    var rest := Filter(asgs, KeyIsNot(AssignmentId, id));
    assert asgs[j] in rest;
    var k :| 0 <= k < |rest| && rest[k] == asgs[j];
  }

  /** Removing an assignment together with its attachments and submissions keeps the store consistent. */
  lemma DeleteKeepsConsistent(users: seq<User>, subjects: seq<Subject>, asgs: seq<Assignment>,
                              files: seq<AssignmentFile>, subs: seq<Submission>, id: string)
    requires Consistent(users, subjects, asgs, files, subs)
    ensures Consistent(users, subjects, Filter(asgs, KeyIsNot(AssignmentId, id)), Filter(files, NotAttachedTo(id)),
                       Filter(subs, NotSubmittedTo(id)))
  {
    FilterKeepsUniqueKeys(asgs, KeyIsNot(AssignmentId, id), AssignmentId);
    FilterKeepsUniqueKeys(files, NotAttachedTo(id), AssignmentFileId);
    FilterKeepsUniqueKeys(subs, NotSubmittedTo(id), SubmissionId);
    FilterKeepsUniqueKeys(subs, NotSubmittedTo(id), SubmissionPair);
    var fs := Filter(files, NotAttachedTo(id));
    forall k | 0 <= k < |fs| ensures HasAssignment(Filter(asgs, KeyIsNot(AssignmentId, id)), fs[k].assignmentId) {
      assert fs[k] in files;
      var j :| 0 <= j < |files| && files[j] == fs[k];
      HasAssignmentAfterDelete(asgs, id, fs[k].assignmentId);
    }
    var ss := Filter(subs, NotSubmittedTo(id));
    forall k | 0 <= k < |ss| ensures HasAssignment(Filter(asgs, KeyIsNot(AssignmentId, id)), ss[k].assignmentId) {
      assert ss[k] in subs;
      var j :| 0 <= j < |subs| && subs[j] == ss[k];
      HasAssignmentAfterDelete(asgs, id, ss[k].assignmentId);
    }
  }

  /** The loop of `deleteAssignment` over the assignment's attachments. */
  method DeleteStoredFiles(db: Database, files: seq<AssignmentFile>, failing: set<string>)
    modifies db`uploads
    ensures db.uploads == old(db.uploads) - DeletedNames(files, failing)
  {
    var i := 0;
    while i < |files|
      invariant 0 <= i <= |files|
      invariant db.uploads == old(db.uploads) - DeletedNames(files[..i], failing)
    {
      assert files[..i + 1][..i] == files[..i];
      FileStorage.DeleteFile(db, files[i].filePath, files[i].filePath in failing);
      i := i + 1;
    }
    assert files[..|files|] == files;
  }

  /**
   * `deleteAssignment`: an unknown id fails and changes nothing. Otherwise the stored file
   * of every attachment is deleted (a failing deletion is swallowed), and the assignment is
   * removed with its attachment rows and, by cascade, its submissions; all other rows stay.
   */
  method DeleteAssignment(db: Database, id: string, failing: set<string>) returns (r: Result<()>)
    requires db.Valid()
    modifies db`assignments, db`attachments, db`submissions, db`uploads
    ensures db.Valid()
    ensures GetAssignmentById(old(db.assignments), id).Err? ==>
              && r == Err(AssignmentNotFound)
              && db.assignments == old(db.assignments) && db.attachments == old(db.attachments)
              && db.submissions == old(db.submissions) && db.uploads == old(db.uploads)
    ensures GetAssignmentById(old(db.assignments), id).Ok? ==>
              && r == Ok(())
              && db.assignments == Filter(old(db.assignments), KeyIsNot(AssignmentId, id))
              && db.attachments == Filter(old(db.attachments), NotAttachedTo(id))
              && db.submissions == Filter(old(db.submissions), NotSubmittedTo(id))
              && db.uploads == old(db.uploads) - DeletedNames(Filter(old(db.attachments), AttachedTo(id)), failing)
  {
    var found := GetAssignmentById(db.assignments, id);
    if found.Err? {
      return Err(AssignmentNotFound);
    }
    DeleteStoredFiles(db, Filter(db.attachments, AttachedTo(id)), failing);
    DeleteKeepsConsistent(db.users, db.subjects, db.assignments, db.attachments, db.submissions, id);
    db.assignments := Filter(db.assignments, KeyIsNot(AssignmentId, id));
    db.attachments := Filter(db.attachments, NotAttachedTo(id));
    db.submissions := Filter(db.submissions, NotSubmittedTo(id));
    r := Ok(());
  }

  /** After deletion the id is unknown, and every other assignment is still there. */
  lemma DeletedAssignmentIsGone(asgs: seq<Assignment>, id: string)
    ensures GetAssignmentById(Filter(asgs, KeyIsNot(AssignmentId, id)), id).Err?
    ensures forall a :: a in asgs && a.id != id ==> a in Filter(asgs, KeyIsNot(AssignmentId, id))
  {
    var rest := Filter(asgs, KeyIsNot(AssignmentId, id));
    forall j | 0 <= j < |rest| ensures rest[j].id != id {
      assert rest[j] in rest;
    }
  }
}
