/** The derived and JPQL queries over the submission table, as filters and counts. */
module SubmissionRepository {
  import opened Results
  import opened Entities
  import opened Seqs
  import AssignmentRepository

  /** The owner of an assignment, following the `s.assignment.teacher` join. */
  function TeacherOf(asgs: seq<Assignment>, assignmentId: string): Option<string>
  {
    match AssignmentRepository.FindById(asgs, assignmentId)
    case None => None
    case Some(a) => Some(a.teacherId)
  }

  /** Row conditions, one per query. */
  function HasId(id: string): Submission -> bool { (s: Submission) => s.id == id }
  function ForPair(assignmentId: string, studentId: string): Submission -> bool
  {
    (s: Submission) => s.assignmentId == assignmentId && s.studentId == studentId
  }
  function ForAssignment(assignmentId: string): Submission -> bool
  {
    (s: Submission) => s.assignmentId == assignmentId
  }
  function ByStudent(studentId: string): Submission -> bool { (s: Submission) => s.studentId == studentId }
  function GradedFor(assignmentId: string): Submission -> bool
  {
    (s: Submission) => s.assignmentId == assignmentId && s.score.Some?
  }
  function ForTeacher(asgs: seq<Assignment>, teacherId: string): Submission -> bool
  {
    (s: Submission) => TeacherOf(asgs, s.assignmentId) == Some(teacherId)
  }
  function UncheckedForTeacher(asgs: seq<Assignment>, teacherId: string): Submission -> bool
  {
    (s: Submission) => TeacherOf(asgs, s.assignmentId) == Some(teacherId) && s.score.None?
  }
  function GradedByStudent(studentId: string): Submission -> bool
  {
    (s: Submission) => s.studentId == studentId && s.score.Some?
  }
  function LateFor(assignmentId: string): Submission -> bool
  {
    (s: Submission) => s.assignmentId == assignmentId && s.isLate == Some(true)
  }

  /** `findById`: the submission with that primary key, if any. */
  function FindById(subs: seq<Submission>, id: string): (r: Option<Submission>)
    ensures r.None? <==> forall j :: 0 <= j < |subs| ==> subs[j].id != id
    ensures r.Some? ==> r.value in subs && r.value.id == id
  {
    Find(subs, HasId(id))
  }

  /** `findByAssignmentAndStudent`: the submission of that (assignment, student) pair, if any. */
  function FindByAssignmentAndStudent(subs: seq<Submission>, assignmentId: string, studentId: string)
    : (r: Option<Submission>)
    ensures r.None? <==> forall j :: 0 <= j < |subs| ==> SubmissionPair(subs[j]) != (assignmentId, studentId)
    ensures r.Some? ==> r.value in subs && SubmissionPair(r.value) == (assignmentId, studentId)
  {
    Find(subs, ForPair(assignmentId, studentId))
  }

  /** `findByAssignment`: exactly the submissions of one assignment. */
  function FindByAssignment(subs: seq<Submission>, assignmentId: string): (r: seq<Submission>)
    ensures forall s :: s in r <==> s in subs && s.assignmentId == assignmentId
  {
    Filter(subs, ForAssignment(assignmentId))
  }

  /** `findByStudent`: exactly the submissions of one student. */
  function FindByStudent(subs: seq<Submission>, studentId: string): (r: seq<Submission>)
    ensures forall s :: s in r <==> s in subs && s.studentId == studentId
  {
    Filter(subs, ByStudent(studentId))
  }

  /** `findByAssignmentAndScoreIsNotNull`: the graded submissions of one assignment. */
  function FindGradedByAssignment(subs: seq<Submission>, assignmentId: string): (r: seq<Submission>)
    ensures forall s :: s in r <==> s in subs && s.assignmentId == assignmentId && s.score.Some?
  {
    Filter(subs, GradedFor(assignmentId))
  }

  /** `findByTeacher`: exactly the submissions whose assignment the teacher owns. */
  function FindByTeacher(subs: seq<Submission>, asgs: seq<Assignment>, teacherId: string): (r: seq<Submission>)
    ensures forall s :: s in r <==> s in subs && TeacherOf(asgs, s.assignmentId) == Some(teacherId)
  {
    Filter(subs, ForTeacher(asgs, teacherId))
  }

  /** `findUncheckedByTeacher`: the teacher's submissions that have no score yet. */
  function FindUncheckedByTeacher(subs: seq<Submission>, asgs: seq<Assignment>, teacherId: string)
    : (r: seq<Submission>)
    ensures forall s :: s in r <==> s in subs && TeacherOf(asgs, s.assignmentId) == Some(teacherId) && s.score.None?
  {
    Filter(subs, UncheckedForTeacher(asgs, teacherId))
  }

  /** The non-null scores of `subs`, in order. */
  function ScoresOf(subs: seq<Submission>): (r: seq<int>)
    ensures |r| == |Filter(subs, IsGraded)|
  {
    if |subs| == 0 then []
    else if subs[0].score.Some? then [subs[0].score.value] + ScoresOf(subs[1..])
    else ScoresOf(subs[1..])
  }

  /** A list holding only graded submissions yields one score per submission. */
  lemma {:induction false} ScoresOfGraded(subs: seq<Submission>)
    requires forall s :: s in subs ==> s.score.Some?
    ensures |ScoresOf(subs)| == |subs|
  {
    if |subs| > 0 {
      assert subs[0] in subs;
      ScoresOfGraded(subs[1..]);
    }
  }

  /** The arithmetic mean of a non-empty list of scores. */
  function Mean(xs: seq<int>): real
    requires |xs| > 0
  {
    (Sum(xs) as real) / (|xs| as real)
  }

  /**
   * `findAverageScoreByStudent`: SQL AVG over the student's graded submissions, NULL when
   * there are none; otherwise the mean of one score per graded submission.
   */
  function AverageScoreOfStudent(subs: seq<Submission>, studentId: string): (r: Option<real>)
    ensures r.None? <==> forall s :: s in subs ==> !(s.studentId == studentId && s.score.Some?)
    ensures r.Some? ==> |ScoresOf(Filter(subs, GradedByStudent(studentId)))| == |Filter(subs, GradedByStudent(studentId))| > 0
    ensures r.Some? ==> r == Some(Mean(ScoresOf(Filter(subs, GradedByStudent(studentId)))))
  {
    var graded := Filter(subs, GradedByStudent(studentId));
    if |graded| == 0 then None
    else
      assert graded[0] in graded;
      ScoresOfGraded(graded);
      Some(Mean(ScoresOf(graded)))
  }

  /** `countLateSubmissionsByAssignment`. */
  function CountLateByAssignment(subs: seq<Submission>, assignmentId: string): nat
  {
    Count(subs, LateFor(assignmentId))
  }

  /** On a table with the unique (assignment, student) constraint, a pair matches at most one row. */
  lemma AtMostOnePerPair(subs: seq<Submission>, assignmentId: string, studentId: string)
    requires UniqueKeys(subs, SubmissionPair)
    ensures |Filter(subs, ForPair(assignmentId, studentId))| <= 1
    ensures FindByAssignmentAndStudent(subs, assignmentId, studentId).Some? ==>
      forall s :: s in subs && SubmissionPair(s) == (assignmentId, studentId) ==>
        s == FindByAssignmentAndStudent(subs, assignmentId, studentId).value
  {
    UniqueKeysAtMostOne(subs, SubmissionPair, ForPair(assignmentId, studentId), (assignmentId, studentId));
    var r := FindByAssignmentAndStudent(subs, assignmentId, studentId);
    var f := Filter(subs, ForPair(assignmentId, studentId));
    if r.Some? {
      forall s | s in subs && SubmissionPair(s) == (assignmentId, studentId)
        ensures s == r.value
      {
        assert s in f && r.value in f;
        assert f[0] == s && f[0] == r.value;
      }
    }
  }

  /** The unchecked list is the teacher's list restricted to null scores, in the same order. */
  lemma UncheckedRestrictsTeacherList(subs: seq<Submission>, asgs: seq<Assignment>, teacherId: string)
    ensures FindUncheckedByTeacher(subs, asgs, teacherId) == Filter(FindByTeacher(subs, asgs, teacherId), IsUngraded)
    ensures forall s :: s in FindUncheckedByTeacher(subs, asgs, teacherId) ==> s in FindByTeacher(subs, asgs, teacherId)
  {
    FilterOfFilter(subs, ForTeacher(asgs, teacherId), IsUngraded, UncheckedForTeacher(asgs, teacherId));
  }

  /**
   * The graded submissions of an assignment are its submissions restricted to non-null scores,
   * and together with the ungraded ones they account for all of them.
   */
  lemma GradedAndUngradedPartition(subs: seq<Submission>, assignmentId: string)
    ensures FindGradedByAssignment(subs, assignmentId) == Filter(FindByAssignment(subs, assignmentId), IsGraded)
    ensures |FindGradedByAssignment(subs, assignmentId)| + |Filter(FindByAssignment(subs, assignmentId), IsUngraded)|
            == |FindByAssignment(subs, assignmentId)|
  {
    FilterOfFilter(subs, ForAssignment(assignmentId), IsGraded, GradedFor(assignmentId));
    FilterComplement(FindByAssignment(subs, assignmentId), IsGraded, IsUngraded);
  }

  /** The late count is the number of the assignment's submissions flagged late. */
  lemma LateCountIsLateSubmissions(subs: seq<Submission>, assignmentId: string)
    ensures CountLateByAssignment(subs, assignmentId) == |Filter(FindByAssignment(subs, assignmentId), IsLate)|
  {
    CountIsFilterLength(subs, LateFor(assignmentId));
    FilterOfFilter(subs, ForAssignment(assignmentId), IsLate, LateFor(assignmentId));
  }
}
