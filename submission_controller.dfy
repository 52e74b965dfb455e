/**
 * The web handlers for handing in and grading: who may see each form, what a form
 * validation error does, and where each outcome redirects.
 */
module SubmissionController {
  import opened Results
  import opened Entities
  import opened Seqs
  import opened Store
  import opened Views
  import FileStorage
  import AssignmentRepository
  import SubmissionRepository
  import UserRepository
  import SubmissionService

  const Home := "redirect:/"
  const SubmitFormView := "submission-submit"
  const GradeFormView := "submission-grade"
  const SubmissionListView := "submission-list"

  function SubmitFormAgain(assignmentId: string): string { "redirect:/submissions/submit/" + assignmentId }
  function GradeFormAgain(submissionId: string): string { "redirect:/submissions/grade/" + submissionId }
  function AssignmentDetailsPage(assignmentId: string): string { "redirect:/assignments/details/" + assignmentId }

  // ---------------------------------------------------------------- submit form

  /** `showSubmitForm`: only a student of the assignment's group sees the form. */
  function ShowSubmitForm(asgs: seq<Assignment>, users: seq<User>, assignmentId: string, username: string)
    : (view: string)
    ensures view in {MyAssignments, AccessDenied, SubmitFormView}
    ensures view == MyAssignments <==>
      (forall j :: 0 <= j < |asgs| ==> asgs[j].id != assignmentId) ||
      (forall j :: 0 <= j < |users| ==> users[j].username != username)
    ensures view == SubmitFormView ==> exists a, u ::
      a in asgs && a.id == assignmentId && u in users && u.username == username &&
      u.IsStudent() && u.group == Some(a.group)
  {
    match AssignmentRepository.FindById(asgs, assignmentId)
    case None => MyAssignments
    case Some(a) =>
      match UserRepository.FindByUsername(users, username)
      case None => MyAssignments
      case Some(u) =>
        if !u.IsStudent() || u.group != Some(a.group) then AccessDenied else SubmitFormView
  }

  /**
   * With unique assignment ids and usernames, the form is shown exactly to an existing
   * student whose group is the assignment's group.
   */
  lemma SubmitFormShownIff(asgs: seq<Assignment>, users: seq<User>, assignmentId: string, username: string)
    requires UniqueKeys(asgs, AssignmentId) && UniqueKeys(users, Username)
    ensures ShowSubmitForm(asgs, users, assignmentId, username) == SubmitFormView <==> exists a, u ::
      a in asgs && a.id == assignmentId && u in users && u.username == username &&
      u.IsStudent() && u.group == Some(a.group)
  {
    var fa := AssignmentRepository.FindById(asgs, assignmentId);
    var fu := UserRepository.FindByUsername(users, username);
    forall a, u | a in asgs && a.id == assignmentId && u in users && u.username == username
      ensures fa == Some(a) && fu == Some(u)
    {
      SameKeySameRow(asgs, AssignmentId, a, fa.value);
      SameKeySameRow(users, Username, u, fu.value);
    }
  }

  /**
   * Whoever is shown the form passes every check of the service except, possibly, the
   * one against handing in twice.
   */
  lemma SubmitFormAgreesWithService(asgs: seq<Assignment>, users: seq<User>, subs: seq<Submission>,
                                    assignmentId: string, username: string)
    requires ShowSubmitForm(asgs, users, assignmentId, username) == SubmitFormView
    ensures SubmissionService.CheckSubmission(asgs, users, subs, assignmentId, username).Ok? ||
            SubmissionService.CheckSubmission(asgs, users, subs, assignmentId, username) == Err(AlreadySubmitted)
  {
  }

  /** The submission form: a comment that is not blank, and a file. */
  datatype SubmitForm = SubmitForm(comment: Option<string>, file: Option<Upload>)

  /** Not blank: some character remains once control characters and spaces are trimmed. */
  predicate NotBlank(s: Option<string>)
  {
    s.Some? && exists i :: 0 <= i < |s.value| && s.value[i] > ' '
  }

  predicate SubmitFormValid(form: SubmitForm)
  {
    NotBlank(form.comment) && form.file.Some?
  }

  /**
   * `submitAssignment`: a form error sends the student back without touching the store;
   * otherwise the service runs, and its success leads to the assignment list while its
   * failure leads back to the form.
   */
  method SubmitAssignment(db: Database, assignmentId: string, username: string, form: SubmitForm,
                          newId: string, now: int) returns (view: string)
    requires db.Valid()
    requires forall s :: s in db.submissions ==> s.id != newId
    modifies db`submissions, db`uploads
    ensures db.Valid()
    ensures !SubmitFormValid(form) ==>
              view == SubmitFormAgain(assignmentId) &&
              db.submissions == old(db.submissions) && db.uploads == old(db.uploads)
    ensures SubmitFormValid(form) ==>
              var c := SubmissionService.CheckSubmission(db.assignments, db.users, old(db.submissions),
                                                         assignmentId, username);
              var stored := FileStorage.StoredFileName(form.file.value);
              && (c.Ok? && stored.Ok? ==>
                    && view == MyAssignments
                    && db.submissions == old(db.submissions) +
                         [SubmissionService.NewSubmission(newId, c.value.0, c.value.1, stored.value, form.comment, now)]
                    && db.uploads == old(db.uploads) + {stored.value})
              && (c.Err? || stored.Err? ==>
                    && view == SubmitFormAgain(assignmentId)
                    && db.submissions == old(db.submissions) && db.uploads == old(db.uploads))
  {
    if !SubmitFormValid(form) {
      return SubmitFormAgain(assignmentId);
    }
    var r := SubmissionService.SubmitAssignment(db, assignmentId, username, form.comment, form.file.value, newId, now);
    view := if r.Ok? then MyAssignments else SubmitFormAgain(assignmentId);
  }

  // ---------------------------------------------------------------- grade form

  /**
   * `showGradeForm`: only the teacher who owns the submission's assignment sees the form.
   * A missing submission, user or assignment leads back to the assignment list.
   */
  function ShowGradeForm(subs: seq<Submission>, asgs: seq<Assignment>, users: seq<User>,
                         submissionId: string, username: string): (view: string)
    ensures view in {MyAssignments, AccessDenied, GradeFormView}
    ensures view == GradeFormView ==> exists s, u ::
      s in subs && s.id == submissionId && u in users && u.username == username && u.IsTeacher() &&
      SubmissionRepository.TeacherOf(asgs, s.assignmentId) == Some(u.id)
  {
    match SubmissionRepository.FindById(subs, submissionId)
    case None => MyAssignments
    case Some(s) =>
      match UserRepository.FindByUsername(users, username)
      case None => MyAssignments
      case Some(u) =>
        match SubmissionRepository.TeacherOf(asgs, s.assignmentId)
        case None => MyAssignments
        case Some(owner) => if !u.IsTeacher() || owner != u.id then AccessDenied else GradeFormView
  }

  /**
   * With unique keys, the grade form leads back to the list exactly when the submission,
   * the user or the submission's assignment is missing, and is shown exactly to an
   * existing teacher who is the author of the submission's assignment.
   */
  lemma GradeFormOutcomes(subs: seq<Submission>, asgs: seq<Assignment>, users: seq<User>,
                          submissionId: string, username: string)
    requires UniqueKeys(subs, SubmissionId) && UniqueKeys(users, Username)
    ensures ShowGradeForm(subs, asgs, users, submissionId, username) == MyAssignments <==>
      || (forall j :: 0 <= j < |subs| ==> subs[j].id != submissionId)
      || (forall j :: 0 <= j < |users| ==> users[j].username != username)
      || exists s :: s in subs && s.id == submissionId && SubmissionRepository.TeacherOf(asgs, s.assignmentId).None?
    ensures ShowGradeForm(subs, asgs, users, submissionId, username) == GradeFormView <==> exists s, u ::
      s in subs && s.id == submissionId && u in users && u.username == username && u.IsTeacher() &&
      SubmissionRepository.TeacherOf(asgs, s.assignmentId) == Some(u.id)
  {
    var fs := SubmissionRepository.FindById(subs, submissionId);
    var fu := UserRepository.FindByUsername(users, username);
    forall s | s in subs && s.id == submissionId ensures fs == Some(s) {
      SameKeySameRow(subs, SubmissionId, s, fs.value);
    }
    forall u | u in users && u.username == username ensures fu == Some(u) {
      SameKeySameRow(users, Username, u, fu.value);
    }
  }

  /** Whoever is shown the grade form passes every check of the service except the score bound. */
  lemma GradeFormAgreesWithService(subs: seq<Submission>, asgs: seq<Assignment>, users: seq<User>,
                                   submissionId: string, username: string, score: int)
    requires ShowGradeForm(subs, asgs, users, submissionId, username) == GradeFormView
    ensures SubmissionService.CheckGrade(subs, asgs, users, submissionId, username, score).Ok? ||
            SubmissionService.CheckGrade(subs, asgs, users, submissionId, username, score) == Err(ScoreAboveMaximum)
  {
  }

  /** The grading form: a score (required, at least 0) and feedback of at most 1000 characters. */
  datatype GradeForm = GradeForm(score: Option<int>, feedback: Option<string>)

  /**
   * The length Java's `String.length()` reports, in UTF-16 code units: a character outside
   * the Basic Multilingual Plane is a surrogate pair and counts twice.
   */
  function Utf16Length(s: string): (n: nat)
    ensures |s| <= n <= 2 * |s|
    ensures n == |s| <==> forall i :: 0 <= i < |s| ==> (s[i] as int) < 0x10000
    ensures (forall i :: 0 <= i < |s| ==> (s[i] as int) >= 0x10000) ==> n == 2 * |s|
  {
    if |s| == 0 then 0
    else
      var n := (if (s[0] as int) < 0x10000 then 1 else 2) + Utf16Length(s[1..]);
      assert forall i :: 1 <= i < |s| ==> s[i] == s[1..][i - 1];
      n
  }

  /** `@Size(max = 1000)` on the feedback counts UTF-16 code units. */
  predicate GradeFormValid(form: GradeForm)
  {
    form.score.Some? && form.score.value >= 0 && (form.feedback.None? || Utf16Length(form.feedback.value) <= 1000)
  }

  /**
   * Feedback of 600 characters outside the Basic Multilingual Plane is 1200 UTF-16 units,
   * so the form refuses it although it has fewer than 1000 characters.
   */
  lemma SupplementaryFeedbackRefused(score: int, feedback: string)
    requires |feedback| == 600 && forall i :: 0 <= i < |feedback| ==> (feedback[i] as int) >= 0x10000
    ensures !GradeFormValid(GradeForm(Some(score), Some(feedback)))
  {
  }

  /**
   * `gradeSubmission`: a form error (a missing or negative score, or overlong feedback)
   * sends the teacher back without touching the store; otherwise the service runs, and its
   * success leads to the details page of the submission's assignment while its failure
   * leads back to the form.
   */
  method GradeSubmission(db: Database, submissionId: string, username: string, form: GradeForm, now: int)
    returns (view: string)
    requires db.Valid()
    modifies db`submissions
    ensures db.Valid()
    ensures !GradeFormValid(form) ==> view == GradeFormAgain(submissionId) && db.submissions == old(db.submissions)
    ensures GradeFormValid(form) ==>
              var c := SubmissionService.CheckGrade(old(db.submissions), db.assignments, db.users, submissionId,
                                                    username, form.score.value);
              && (c.Ok? ==>
                    && view == AssignmentDetailsPage(c.value.0.assignmentId)
                    && db.submissions == SubmissionService.ReplaceById(old(db.submissions),
                         SubmissionService.Graded(c.value.0, form.score.value, form.feedback, c.value.1.id, now)))
              && (c.Err? ==> view == GradeFormAgain(submissionId) && db.submissions == old(db.submissions))
  {
    if !GradeFormValid(form) {
      return GradeFormAgain(submissionId);
    }
    var r := SubmissionService.GradeSubmission(db, submissionId, username, form.score.value, form.feedback, now);
    if r.Err? {
      return GradeFormAgain(submissionId);
    }
    view := AssignmentDetailsPage(r.value.assignmentId);
  }

  // ---------------------------------------------------------------- my submissions

  /** The list page: the view name and the submissions shown, if any. */
  datatype SubmissionList = SubmissionList(view: string, submissions: Option<seq<Submission>>)

  /**
   * `showMySubmissions`: a student sees their own submissions, a teacher those to their
   * assignments, any other user an empty page; an unknown user is sent home.
   */
  function ShowMySubmissions(users: seq<User>, asgs: seq<Assignment>, subs: seq<Submission>, username: string)
    : (r: SubmissionList)
    ensures r.view == Home <==> forall j :: 0 <= j < |users| ==> users[j].username != username
    ensures r.view != Home ==> r.view == SubmissionListView
    ensures r.submissions.Some? ==> exists u :: (
      && u in users && u.username == username
      && (u.IsStudent() ==> forall s :: s in r.submissions.value <==> s in subs && s.studentId == u.id)
      && (u.IsTeacher() ==> forall s :: s in r.submissions.value <==>
                              s in subs && SubmissionRepository.TeacherOf(asgs, s.assignmentId) == Some(u.id)))
    ensures r.view == SubmissionListView && r.submissions.None? ==>
      exists u :: u in users && u.username == username && !u.IsStudent() && !u.IsTeacher()
  {
    match UserRepository.FindByUsername(users, username)
    case None => SubmissionList(Home, None)
    case Some(u) =>
      if u.IsStudent() then
        SubmissionList(SubmissionListView, Some(SubmissionRepository.FindByStudent(subs, u.id)))
      else if u.IsTeacher() then
        SubmissionList(SubmissionListView, Some(SubmissionRepository.FindByTeacher(subs, asgs, u.id)))
      else SubmissionList(SubmissionListView, None)
  }

  /** An administrator, or a user without a role, is shown no submissions. */
  lemma OtherRolesSeeNothing(users: seq<User>, asgs: seq<Assignment>, subs: seq<Submission>, u: User)
    requires UniqueKeys(users, Username) && u in users && !u.IsStudent() && !u.IsTeacher()
    ensures ShowMySubmissions(users, asgs, subs, u.username) == SubmissionList(SubmissionListView, None)
  {
    var f := UserRepository.FindByUsername(users, u.username);
    var k :| 0 <= k < |users| && users[k] == f.value;
    var l :| 0 <= l < |users| && users[l] == u;
    assert Username(users[k]) == Username(users[l]);
  }
}
