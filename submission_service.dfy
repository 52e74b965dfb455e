/**
 * Handing in and grading work: a student submits once per assignment of their group,
 * the assignment's author grades, and the listing queries behind the pages.
 */
module SubmissionService {
  import opened Results
  import opened Entities
  import opened Seqs
  import opened Store
  import FileStorage
  import AssignmentRepository
  import SubmissionRepository
  import UserRepository

  // ---------------------------------------------------------------- submitting

  /**
   * The checks of `submitAssignment`, in source order: the assignment exists, the student
   * exists, the student's group is the assignment's group (a student without a group never
   * matches), and the pair has no submission yet.
   */
  function CheckSubmission(asgs: seq<Assignment>, users: seq<User>, subs: seq<Submission>,
                           assignmentId: string, username: string): (r: Result<(Assignment, User)>)
    ensures r.Ok? || r.error in {AssignmentNotFound, StudentNotFound, WrongGroup, AlreadySubmitted}
    ensures r == Err(AssignmentNotFound) <==> forall j :: 0 <= j < |asgs| ==> asgs[j].id != assignmentId
    ensures r == Err(StudentNotFound) <==>
      (exists j :: 0 <= j < |asgs| && asgs[j].id == assignmentId) &&
      forall j :: 0 <= j < |users| ==> users[j].username != username
    ensures r.Ok? ==> r.value.0 in asgs && r.value.0.id == assignmentId
    ensures r.Ok? ==> r.value.1 in users && r.value.1.username == username
    ensures r.Ok? ==> r.value.1.group == Some(r.value.0.group)
    ensures r.Ok? ==> forall s :: s in subs ==> SubmissionPair(s) != (assignmentId, r.value.1.id)
  {
    match AssignmentRepository.FindById(asgs, assignmentId)
    case None => Err(AssignmentNotFound)
    case Some(a) =>
      match UserRepository.FindByUsername(users, username)
      case None => Err(StudentNotFound)
      case Some(u) =>
        if u.group != Some(a.group) then Err(WrongGroup)
        else if SubmissionRepository.FindByAssignmentAndStudent(subs, a.id, u.id).Some? then Err(AlreadySubmitted)
        else Ok((a, u))
  }

  /**
   * With unique assignment ids and usernames, a submission is accepted exactly when the
   * assignment and the student exist, share the group, and the pair has no submission.
   */
  lemma SubmissionAcceptedIff(asgs: seq<Assignment>, users: seq<User>, subs: seq<Submission>,
                              assignmentId: string, username: string)
    requires UniqueKeys(asgs, AssignmentId) && UniqueKeys(users, Username)
    ensures CheckSubmission(asgs, users, subs, assignmentId, username).Ok? <==>
      exists a, u :: a in asgs && a.id == assignmentId && u in users && u.username == username &&
        u.group == Some(a.group) && forall s :: s in subs ==> SubmissionPair(s) != (assignmentId, u.id)
  {
    var r := CheckSubmission(asgs, users, subs, assignmentId, username);
    if r.Ok? {
      assert r.value.0 in asgs && r.value.1 in users;
    } else {
      forall a, u | a in asgs && a.id == assignmentId && u in users && u.username == username &&
        u.group == Some(a.group)
        ensures exists s :: s in subs && SubmissionPair(s) == (assignmentId, u.id)
      {
        var fa := AssignmentRepository.FindById(asgs, assignmentId);
        var fu := UserRepository.FindByUsername(users, username);
        var i :| 0 <= i < |asgs| && asgs[i] == fa.value;
        var j :| 0 <= j < |asgs| && asgs[j] == a;
        assert AssignmentId(asgs[i]) == AssignmentId(asgs[j]);
        var k :| 0 <= k < |users| && users[k] == fu.value;
        var l :| 0 <= l < |users| && users[l] == u;
        assert Username(users[k]) == Username(users[l]);
        var found := SubmissionRepository.FindByAssignmentAndStudent(subs, a.id, u.id);
        assert found.Some?;
        assert found.value in subs;
      }
    }
  }

  /** A student with no group can never hand in: the group check rejects them. */
  lemma StudentWithoutGroupRejected(asgs: seq<Assignment>, users: seq<User>, subs: seq<Submission>,
                                    assignmentId: string, student: User)
    requires UniqueKeys(users, Username)
    requires student in users && student.group.None?
    requires exists j :: 0 <= j < |asgs| && asgs[j].id == assignmentId
    ensures CheckSubmission(asgs, users, subs, assignmentId, student.username) == Err(WrongGroup)
  {
    var fu := UserRepository.FindByUsername(users, student.username);
    var k :| 0 <= k < |users| && users[k] == fu.value;
    var l :| 0 <= l < |users| && users[l] == student;
    assert Username(users[k]) == Username(users[l]);
  }

  /** A second submission for the same assignment is refused, however it is made. */
  lemma ResubmissionRejected(asgs: seq<Assignment>, users: seq<User>, subs: seq<Submission>,
                             earlier: Submission, username: string)
    requires UniqueKeys(users, Username)
    requires earlier in subs
    requires exists u :: u in users && u.username == username && u.id == earlier.studentId
    ensures CheckSubmission(asgs, users, subs, earlier.assignmentId, username).Err?
  {
  }

  /**
   * The new submission row on a single clock reading: no score, grading teacher or grading
   * time yet; the student's comment goes into the feedback column; it is late exactly when
   * it is handed in after the deadline. The source reads the clock twice
   * (`NewSubmissionAsWritten`); this is the row it evidently intends.
   */
  function NewSubmission(id: string, a: Assignment, student: User, filePath: string,
                         comment: Option<string>, now: int): (r: Submission)
    ensures SubmissionPair(r) == (a.id, student.id) && r.id == id && r.filePath == filePath
    ensures IsLate(r) <==> r.submittedAt > a.deadline
    ensures r.isLate.Some? && r.submittedAt == now
    ensures IsUngraded(r) && r.gradedBy.None? && r.gradedAt.None? && r.feedback == comment
  {
    Submission(id, a.id, student.id, filePath, now, Some(now > a.deadline), None, comment, None, None)
  }

  /**
   * The row exactly as the source builds it: lateness is decided on one reading of the
   * clock (`lateCheck`) and the submission time is a second, later reading (`savedAt`).
   */
  function NewSubmissionAsWritten(id: string, a: Assignment, student: User, filePath: string,
                                  comment: Option<string>, lateCheck: int, savedAt: int): (r: Submission)
    requires lateCheck <= savedAt
    ensures IsLate(r) <==> lateCheck > a.deadline
    ensures r.submittedAt == savedAt
  {
    Submission(id, a.id, student.id, filePath, savedAt, Some(lateCheck > a.deadline), None, comment, None, None)
  }

  /**
   * The two readings disagree when the deadline falls between them: the row records a
   * submission time after the deadline but is not marked late.
   */
  lemma AsWrittenMissesLateSubmission()
    ensures var a := Assignment("a", "t", "d", 0, 100, 10, Active, "t1", "s1", "g");
            var u := User("u", "student", "pw", None, "Student", None, Some(Student), Some("g"));
            var r := NewSubmissionAsWritten("s", a, u, "f", None, 100, 101);
            r.submittedAt > a.deadline && !IsLate(r)
  {
  }

  /** On a single clock reading the two constructions agree. */
  lemma SingleReadingAgrees(id: string, a: Assignment, student: User, filePath: string,
                            comment: Option<string>, now: int)
    ensures NewSubmissionAsWritten(id, a, student, filePath, comment, now, now) ==
            NewSubmission(id, a, student, filePath, comment, now)
  {
  }

  /** Appending a checked submission keeps the table consistent. */
  lemma InsertKeepsConsistent(users: seq<User>, subjects: seq<Subject>, asgs: seq<Assignment>,
                              files: seq<AssignmentFile>, subs: seq<Submission>, s: Submission)
    requires Consistent(users, subjects, asgs, files, subs)
    requires forall t :: t in subs ==> t.id != s.id
    requires forall t :: t in subs ==> SubmissionPair(t) != SubmissionPair(s)
    requires exists a :: a in asgs && a.id == s.assignmentId
    ensures Consistent(users, subjects, asgs, files, subs + [s])
  {
    UniqueKeysAppend(subs, s, SubmissionId);
    UniqueKeysAppend(subs, s, SubmissionPair);
    var a :| a in asgs && a.id == s.assignmentId;
    var j :| 0 <= j < |asgs| && asgs[j] == a;
    assert HasAssignment(asgs, s.assignmentId);
    var t := subs + [s];
    forall i | 0 <= i < |t| ensures HasAssignment(asgs, t[i].assignmentId) {
      if i < |subs| {
        assert t[i] == subs[i];
      }
    }
  }

  /**
   * `submitAssignment`: after the checks, the file is stored, then exactly one row is
   * appended: the corrected single-reading row `NewSubmission`, not the two-reading row of
   * the source. Any failure leaves the tables and the upload directory as they were.
   */
  method SubmitAssignment(db: Database, assignmentId: string, username: string, comment: Option<string>,
                          file: Upload, newId: string, now: int) returns (r: Result<Submission>)
    requires db.Valid()
    requires forall s :: s in db.submissions ==> s.id != newId
    modifies db`submissions, db`uploads
    ensures db.Valid()
    ensures var c := CheckSubmission(db.assignments, db.users, old(db.submissions), assignmentId, username);
            c.Err? ==> r == Err(c.error) && db.submissions == old(db.submissions) && db.uploads == old(db.uploads)
    ensures var c := CheckSubmission(db.assignments, db.users, old(db.submissions), assignmentId, username);
            c.Ok? && FileStorage.StoredFileName(file).Err? ==>
              r == Err(FileStorage.StoredFileName(file).error) &&
              db.submissions == old(db.submissions) && db.uploads == old(db.uploads)
    ensures var c := CheckSubmission(db.assignments, db.users, old(db.submissions), assignmentId, username);
            var stored := FileStorage.StoredFileName(file);
            c.Ok? && stored.Ok? ==>
              && r == Ok(NewSubmission(newId, c.value.0, c.value.1, stored.value, comment, now))
              && db.submissions == old(db.submissions) + [r.value]
              && db.uploads == old(db.uploads) + {stored.value}
  {
    var c := CheckSubmission(db.assignments, db.users, db.submissions, assignmentId, username);
    if c.Err? {
      return Err(c.error);
    }
    var (a, student) := c.value;
    var stored := FileStorage.StoreFile(db, file);
    if stored.Err? {
      return Err(stored.error);
    }
    var s := NewSubmission(newId, a, student, stored.value, comment, now);
    InsertKeepsConsistent(db.users, db.subjects, db.assignments, db.attachments, db.submissions, s);
    db.submissions := db.submissions + [s];
    r := Ok(s);
  }

  // ---------------------------------------------------------------- grading

  /**
   * The checks of `gradeSubmission`, in source order: the submission exists, the grading
   * teacher exists, that teacher is the author of the submission's assignment, and the score does not
   * exceed the assignment's maximum. No lower bound is checked here. A submission whose
   * assignment row is missing cannot occur under the foreign key (`ForeignKeyKeepsAssignment`).
   */
  function CheckGrade(subs: seq<Submission>, asgs: seq<Assignment>, users: seq<User>,
                      submissionId: string, teacherUsername: string, score: int): (r: Result<(Submission, User)>)
    ensures r.Ok? || r.error in {SubmissionNotFound, TeacherNotFound, AssignmentNotFound, NotAssignmentAuthor, ScoreAboveMaximum}
    ensures r == Err(SubmissionNotFound) <==> forall j :: 0 <= j < |subs| ==> subs[j].id != submissionId
    ensures r == Err(TeacherNotFound) <==>
      (exists j :: 0 <= j < |subs| && subs[j].id == submissionId) &&
      forall j :: 0 <= j < |users| ==> users[j].username != teacherUsername
    ensures r.Ok? ==> r.value.0 in subs && r.value.0.id == submissionId
    ensures r.Ok? ==> r.value.1 in users && r.value.1.username == teacherUsername
    ensures r.Ok? ==> exists a :: a in asgs && a.id == r.value.0.assignmentId &&
                                  a.teacherId == r.value.1.id && score <= a.maxScore
  {
    match SubmissionRepository.FindById(subs, submissionId)
    case None => Err(SubmissionNotFound)
    case Some(s) =>
      match UserRepository.FindByUsername(users, teacherUsername)
      case None => Err(TeacherNotFound)
      case Some(t) =>
        match AssignmentRepository.FindById(asgs, s.assignmentId)
        case None => Err(AssignmentNotFound)
        case Some(a) =>
          if a.teacherId != t.id then Err(NotAssignmentAuthor)
          else if score > a.maxScore then Err(ScoreAboveMaximum)
          else Ok((s, t))
  }

  /** Under the foreign key from submissions to assignments, grading never misses the assignment. */
  lemma ForeignKeyKeepsAssignment(subs: seq<Submission>, asgs: seq<Assignment>, users: seq<User>,
                                  submissionId: string, teacherUsername: string, score: int)
    requires forall i :: 0 <= i < |subs| ==> HasAssignment(asgs, subs[i].assignmentId)
    ensures CheckGrade(subs, asgs, users, submissionId, teacherUsername, score) != Err(AssignmentNotFound)
  {
    var f := SubmissionRepository.FindById(subs, submissionId);
    if f.Some? {
      var i :| 0 <= i < |subs| && subs[i] == f.value;
      assert HasAssignment(asgs, subs[i].assignmentId);
      var j :| 0 <= j < |asgs| && asgs[j].id == f.value.assignmentId;
      assert AssignmentRepository.FindById(asgs, f.value.assignmentId).Some?;
    }
  }

  /**
   * A submission, a user and an assignment that fit a grading request: the submission has
   * the id, the user the username, and the assignment is the submission's.
   */
  ghost predicate GradingRows(subs: seq<Submission>, asgs: seq<Assignment>, users: seq<User>,
                              submissionId: string, teacherUsername: string, s: Submission, t: User, a: Assignment)
  {
    && s in subs && s.id == submissionId
    && t in users && t.username == teacherUsername
    && a in asgs && a.id == s.assignmentId
  }

  /**
   * With unique keys, a grade is accepted exactly when the user is the author of the
   * submission's assignment and the score is within its maximum; it is refused as not the
   * author exactly when the rows exist but the author is someone else, and as too high
   * exactly when the author grades above the maximum.
   */
  lemma GradeAcceptedIff(subs: seq<Submission>, asgs: seq<Assignment>, users: seq<User>,
                         submissionId: string, teacherUsername: string, score: int)
    requires UniqueKeys(subs, SubmissionId) && UniqueKeys(asgs, AssignmentId) && UniqueKeys(users, Username)
    ensures CheckGrade(subs, asgs, users, submissionId, teacherUsername, score).Ok? <==>
      exists s, t, a :: GradingRows(subs, asgs, users, submissionId, teacherUsername, s, t, a) &&
        a.teacherId == t.id && score <= a.maxScore
    ensures CheckGrade(subs, asgs, users, submissionId, teacherUsername, score) == Err(NotAssignmentAuthor) <==>
      exists s, t, a :: GradingRows(subs, asgs, users, submissionId, teacherUsername, s, t, a) &&
        a.teacherId != t.id
    ensures CheckGrade(subs, asgs, users, submissionId, teacherUsername, score) == Err(ScoreAboveMaximum) <==>
      exists s, t, a :: GradingRows(subs, asgs, users, submissionId, teacherUsername, s, t, a) &&
        a.teacherId == t.id && score > a.maxScore
  {
    var fs := SubmissionRepository.FindById(subs, submissionId);
    var ft := UserRepository.FindByUsername(users, teacherUsername);
    if fs.Some? && ft.Some? {
      var fa := AssignmentRepository.FindById(asgs, fs.value.assignmentId);
      forall s, t, a | GradingRows(subs, asgs, users, submissionId, teacherUsername, s, t, a)
        ensures fa == Some(a) && t == ft.value
      {
        SameKeySameRow(subs, SubmissionId, s, fs.value);
        SameKeySameRow(users, Username, t, ft.value);
        SameKeySameRow(asgs, AssignmentId, a, fa.value);
      }
      if fa.Some? {
        assert GradingRows(subs, asgs, users, submissionId, teacherUsername, fs.value, ft.value, fa.value);
      }
    }
  }

  /**
   * The submission after grading: score, feedback, grading teacher and grading time are the new
   * ones; who handed in what, and when, is kept.
   */
  function Graded(s: Submission, score: int, feedback: Option<string>, teacherId: string, now: int): (r: Submission)
    ensures r.score == Some(score) && r.feedback == feedback
    ensures r.gradedBy == Some(teacherId) && r.gradedAt == Some(now)
    ensures r.id == s.id && SubmissionPair(r) == SubmissionPair(s)
    ensures r.filePath == s.filePath && r.submittedAt == s.submittedAt && r.isLate == s.isLate
  {
    s.(score := Some(score), feedback := feedback, gradedBy := Some(teacherId), gradedAt := Some(now))
  }

  /** Grading again replaces every trace of the earlier grade. */
  lemma RegradeOverwrites(s: Submission, score1: int, feedback1: Option<string>, teacher1: string, time1: int,
                          score2: int, feedback2: Option<string>, teacher2: string, time2: int)
    ensures Graded(Graded(s, score1, feedback1, teacher1, time1), score2, feedback2, teacher2, time2) ==
            Graded(s, score2, feedback2, teacher2, time2)
  {
  }

  /** `save` of an existing entity: the row with that id is replaced, the others stay. */
  function ReplaceById(subs: seq<Submission>, s: Submission): (r: seq<Submission>)
    ensures |r| == |subs|
    ensures forall j :: 0 <= j < |subs| ==> r[j] == (if subs[j].id == s.id then s else subs[j])
  {
    if |subs| == 0 then []
    else [if subs[0].id == s.id then s else subs[0]] + ReplaceById(subs[1..], s)
  }

  /** Replacing a row by its graded version keeps the tables consistent. */
  lemma GradeKeepsConsistent(users: seq<User>, subjects: seq<Subject>, asgs: seq<Assignment>,
                             files: seq<AssignmentFile>, subs: seq<Submission>, s: Submission, g: Submission)
    requires Consistent(users, subjects, asgs, files, subs)
    requires s in subs && g.id == s.id && SubmissionPair(g) == SubmissionPair(s)
    ensures Consistent(users, subjects, asgs, files, ReplaceById(subs, g))
  {
    var i :| 0 <= i < |subs| && subs[i] == s;
    forall j | 0 <= j < |subs| && j != i ensures subs[j].id != s.id {
      assert SubmissionId(subs[j]) != SubmissionId(subs[i]);
    }
    assert ReplaceById(subs, g) == subs[i := g];
    UniqueKeysUpdate(subs, i, g, SubmissionId);
    UniqueKeysUpdate(subs, i, g, SubmissionPair);
  }

  /**
   * `gradeSubmission`: on success the submission's row is replaced by its graded version
   * and nothing else changes; on failure nothing changes at all.
   */
  method GradeSubmission(db: Database, submissionId: string, teacherUsername: string, score: int,
                         feedback: Option<string>, now: int) returns (r: Result<Submission>)
    requires db.Valid()
    modifies db`submissions
    ensures db.Valid()
    ensures var c := CheckGrade(old(db.submissions), db.assignments, db.users, submissionId, teacherUsername, score);
            c.Err? ==> r == Err(c.error) && db.submissions == old(db.submissions)
    ensures var c := CheckGrade(old(db.submissions), db.assignments, db.users, submissionId, teacherUsername, score);
            c.Ok? ==>
              && r == Ok(Graded(c.value.0, score, feedback, c.value.1.id, now))
              && db.submissions == ReplaceById(old(db.submissions), r.value)
  {
    var c := CheckGrade(db.submissions, db.assignments, db.users, submissionId, teacherUsername, score);
    if c.Err? {
      return Err(c.error);
    }
    var (s, teacher) := c.value;
    var g := Graded(s, score, feedback, teacher.id, now);
    GradeKeepsConsistent(db.users, db.subjects, db.assignments, db.attachments, db.submissions, s, g);
    db.submissions := ReplaceById(db.submissions, g);
    r := Ok(g);
  }

  /** The service alone accepts a negative score; only the form's lower bound rules it out. */
  lemma NegativeScoreReachesStore()
    ensures var a := Assignment("a", "t", "d", 0, 100, 10, Active, "t1", "s1", "g");
            var teacher := User("t1", "teacher", "pw", None, "Teacher", None, Some(Teacher), None);
            var s := Submission("s", "a", "u", "f", 50, Some(false), None, None, None, None);
            CheckGrade([s], [a], [teacher], "s", "teacher", -5).Ok?
  {
  }

  // ---------------------------------------------------------------- listings

  /** `getSubmissionsForAssignment`: every submission of an existing assignment. */
  function GetSubmissionsForAssignment(asgs: seq<Assignment>, subs: seq<Submission>, assignmentId: string)
    : (r: Result<seq<Submission>>)
    ensures r.Err? <==> forall j :: 0 <= j < |asgs| ==> asgs[j].id != assignmentId
    ensures r.Err? ==> r.error == AssignmentNotFound
    ensures r.Ok? ==> forall s :: s in r.value <==> s in subs && s.assignmentId == assignmentId
  {
    match AssignmentRepository.FindById(asgs, assignmentId)
    case None => Err(AssignmentNotFound)
    case Some(a) => Ok(SubmissionRepository.FindByAssignment(subs, a.id))
  }

  /** `getStudentSubmissions`: the submissions of the user with that username. */
  function GetStudentSubmissions(users: seq<User>, subs: seq<Submission>, username: string)
    : (r: Result<seq<Submission>>)
    ensures r.Err? <==> forall j :: 0 <= j < |users| ==> users[j].username != username
    ensures r.Err? ==> r.error == StudentNotFound
    ensures r.Ok? ==> exists u :: u in users && u.username == username &&
                        forall s :: s in r.value <==> s in subs && s.studentId == u.id
  {
    match UserRepository.FindByUsername(users, username)
    case None => Err(StudentNotFound)
    case Some(u) => Ok(SubmissionRepository.FindByStudent(subs, u.id))
  }

  /** `getTeacherSubmissions`: the submissions to the assignments of that user. */
  function GetTeacherSubmissions(users: seq<User>, asgs: seq<Assignment>, subs: seq<Submission>,
                                 username: string): (r: Result<seq<Submission>>)
    ensures r.Err? <==> forall j :: 0 <= j < |users| ==> users[j].username != username
    ensures r.Err? ==> r.error == TeacherNotFound
    ensures r.Ok? ==> exists u :: u in users && u.username == username &&
                        forall s :: s in r.value <==> s in subs && SubmissionRepository.TeacherOf(asgs, s.assignmentId) == Some(u.id)
  {
    match UserRepository.FindByUsername(users, username)
    case None => Err(TeacherNotFound)
    case Some(u) => Ok(SubmissionRepository.FindByTeacher(subs, asgs, u.id))
  }

  /** `getUncheckedSubmissionsForTeacher`: the ungraded part of the teacher's list. */
  function GetUncheckedSubmissionsForTeacher(users: seq<User>, asgs: seq<Assignment>, subs: seq<Submission>,
                                             username: string): (r: Result<seq<Submission>>)
    ensures r.Err? <==> forall j :: 0 <= j < |users| ==> users[j].username != username
    ensures r.Err? ==> r.error == TeacherNotFound
    ensures r.Ok? ==> exists u :: u in users && u.username == username &&
                        forall s :: s in r.value <==>
                          s in subs && SubmissionRepository.TeacherOf(asgs, s.assignmentId) == Some(u.id) && s.score.None?
  {
    match UserRepository.FindByUsername(users, username)
    case None => Err(TeacherNotFound)
    case Some(u) => Ok(SubmissionRepository.FindUncheckedByTeacher(subs, asgs, u.id))
  }

  /** `getSubmissionById`. */
  function GetSubmissionById(subs: seq<Submission>, id: string): (r: Result<Submission>)
    ensures r.Err? <==> forall j :: 0 <= j < |subs| ==> subs[j].id != id
    ensures r.Err? ==> r.error == SubmissionNotFound
    ensures r.Ok? ==> r.value in subs && r.value.id == id
  {
    match SubmissionRepository.FindById(subs, id)
    case None => Err(SubmissionNotFound)
    case Some(s) => Ok(s)
  }

  /** The unchecked list is the teacher's list without the graded submissions. */
  lemma UncheckedWithinTeacherList(users: seq<User>, asgs: seq<Assignment>, subs: seq<Submission>, username: string)
    ensures GetUncheckedSubmissionsForTeacher(users, asgs, subs, username).Ok? <==>
            GetTeacherSubmissions(users, asgs, subs, username).Ok?
    ensures GetUncheckedSubmissionsForTeacher(users, asgs, subs, username).Ok? ==>
            GetUncheckedSubmissionsForTeacher(users, asgs, subs, username).value ==
            Filter(GetTeacherSubmissions(users, asgs, subs, username).value, IsUngraded)
  {
    var u := UserRepository.FindByUsername(users, username);
    if u.Some? {
      SubmissionRepository.UncheckedRestrictsTeacherList(subs, asgs, u.value.id);
    }
  }

  /** A freshly handed-in submission waits in its assignment author's unchecked list. */
  lemma NewSubmissionAwaitsGrading(subs: seq<Submission>, asgs: seq<Assignment>, a: Assignment,
                                   s: Submission)
    requires UniqueKeys(asgs, AssignmentId) && a in asgs
    requires s.assignmentId == a.id && IsUngraded(s)
    ensures s in SubmissionRepository.FindUncheckedByTeacher(subs + [s], asgs, a.teacherId)
  {
    var f := AssignmentRepository.FindById(asgs, a.id);
    var i :| 0 <= i < |asgs| && asgs[i] == f.value;
    var j :| 0 <= j < |asgs| && asgs[j] == a;
    assert AssignmentId(asgs[i]) == AssignmentId(asgs[j]);
  }

  /** Once graded, a submission leaves every unchecked list. */
  lemma GradedLeavesUncheckedList(subs: seq<Submission>, asgs: seq<Assignment>, teacherId: string,
                                  g: Submission)
    requires g.score.Some?
    ensures g !in SubmissionRepository.FindUncheckedByTeacher(ReplaceById(subs, g), asgs, teacherId)
  {
  }
}
