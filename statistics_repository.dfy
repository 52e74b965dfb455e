/** The aggregate queries used by the administrator's statistics page. */
module StatisticsRepository {
  import opened Results
  import opened Entities
  import opened Seqs
  import UserRepository
  import SubmissionRepository

  // ---------------------------------------------------------------- by status

  /** One row of `SELECT a.status, COUNT(a) ... GROUP BY a.status`. */
  datatype StatusCount = StatusCount(status: Status, count: nat)

  function WithStatus(status: Status): Assignment -> bool
  {
    (a: Assignment) => a.status == status
  }

  function CountWithStatus(asgs: seq<Assignment>, status: Status): nat
  {
    Count(asgs, WithStatus(status))
  }

  /** A group exists exactly when some assignment has that status. */
  lemma CountPositiveIffPresent(asgs: seq<Assignment>, status: Status)
    ensures CountWithStatus(asgs, status) > 0 <==> exists a :: a in asgs && a.status == status
  {
    CountIsFilterLength(asgs, WithStatus(status));
    var f := Filter(asgs, WithStatus(status));
    if |f| > 0 {
      assert f[0] in f;
    }
  }

  /** Some row of the result reports `status`. */
  predicate ReportsStatus(rows: seq<StatusCount>, status: Status)
  {
    exists i :: 0 <= i < |rows| && rows[i].status == status
  }

  /** Some assignment of the table holds `status`. */
  predicate Occurs(asgs: seq<Assignment>, status: Status)
  {
    exists a :: a in asgs && a.status == status
  }

  /** One row per listed status that occurs, in list order. */
  function GroupRows(asgs: seq<Assignment>, statuses: seq<Status>): (r: seq<StatusCount>)
    requires NoDuplicates(statuses)
    ensures forall row :: row in r ==> row.status in statuses && Occurs(asgs, row.status)
    ensures forall row :: row in r ==> row.count > 0 && row.count == |Filter(asgs, WithStatus(row.status))|
    ensures forall st :: st in statuses && Occurs(asgs, st) ==> ReportsStatus(r, st)
    ensures forall i, j :: 0 <= i < j < |r| ==> r[i].status != r[j].status
  {
    if |statuses| == 0 then []
    else
      var st := statuses[0];
      var rest := GroupRows(asgs, statuses[1..]);
      CountPositiveIffPresent(asgs, st);
      CountIsFilterLength(asgs, WithStatus(st));
      assert forall row :: row in rest ==> row.status != st;
      if CountWithStatus(asgs, st) > 0 then
        var row := StatusCount(st, CountWithStatus(asgs, st));
        PrependRow(row, rest);
        [row] + rest
      else rest
  }

  /** A row whose status the others lack, put in front: every status still appears once. */
  lemma PrependRow(row: StatusCount, rest: seq<StatusCount>)
    requires forall i, j :: 0 <= i < j < |rest| ==> rest[i].status != rest[j].status
    requires forall x :: x in rest ==> x.status != row.status
    ensures ReportsStatus([row] + rest, row.status)
    ensures forall st :: ReportsStatus(rest, st) ==> ReportsStatus([row] + rest, st)
    ensures forall i, j :: 0 <= i < j < |[row] + rest| ==> ([row] + rest)[i].status != ([row] + rest)[j].status
  {
    var r := [row] + rest;
    assert r[0] == row;
    assert forall i :: 0 <= i < |rest| ==> r[i + 1] == rest[i];
    forall i, j | 0 <= i < j < |r| ensures r[i].status != r[j].status {
      if i == 0 {
        assert r[j] in rest;
      }
    }
  }

  /**
   * `countAssignmentsByStatus`: one row per status that occurs, with the number
   * of assignments holding it; no row for an absent status, no status twice.
   */
  function CountAssignmentsByStatus(asgs: seq<Assignment>): (r: seq<StatusCount>)
    ensures forall row :: row in r ==> row.count > 0 && row.count == |Filter(asgs, WithStatus(row.status))|
    ensures forall st: Status :: ReportsStatus(r, st) <==> Occurs(asgs, st)
    ensures forall i, j :: 0 <= i < j < |r| ==> r[i].status != r[j].status
  {
    var r := GroupRows(asgs, [Active, Completed, Expired]);
    assert forall i :: 0 <= i < |r| ==> r[i] in r;
    r
  }

  /** Every assignment has exactly one of the three statuses. */
  lemma {:induction false} StatusCountsCoverTable(asgs: seq<Assignment>)
    ensures CountWithStatus(asgs, Active) + CountWithStatus(asgs, Completed) + CountWithStatus(asgs, Expired) == |asgs|
  {
    if |asgs| > 0 {
      StatusCountsCoverTable(asgs[1..]);
    }
  }

  function SumCounts(rows: seq<StatusCount>): nat
  {
    if |rows| == 0 then 0 else rows[0].count + SumCounts(rows[1..])
  }

  /** The sum of the counts of the listed statuses. */
  function CountsOver(asgs: seq<Assignment>, statuses: seq<Status>): nat
  {
    if |statuses| == 0 then 0 else CountWithStatus(asgs, statuses[0]) + CountsOver(asgs, statuses[1..])
  }

  lemma {:induction false} GroupRowsSum(asgs: seq<Assignment>, statuses: seq<Status>)
    requires NoDuplicates(statuses)
    ensures SumCounts(GroupRows(asgs, statuses)) == CountsOver(asgs, statuses)
  {
    if |statuses| > 0 {
      GroupRowsSum(asgs, statuses[1..]);
    }
  }

  /** The grouped counts add up to the number of assignments. */
  lemma GroupedCountsSumToTotal(asgs: seq<Assignment>)
    ensures SumCounts(CountAssignmentsByStatus(asgs)) == |asgs|
  {
    StatusCountsCoverTable(asgs);
    var statuses := [Active, Completed, Expired];
    GroupRowsSum(asgs, statuses);
    assert statuses[1..] == [Completed, Expired];
    assert statuses[1..][1..] == [Expired];
    assert CountsOver(asgs, [Expired]) == CountWithStatus(asgs, Expired) by {
      assert [Expired][1..] == [];
    }
    assert CountsOver(asgs, statuses) == CountWithStatus(asgs, Active) + CountWithStatus(asgs, Completed) + CountWithStatus(asgs, Expired);
  }

  // ---------------------------------------------------------------- totals

  datatype StatusTotals = StatusTotals(active: nat, completed: nat, expired: nat)

  /**
   * `getAssignmentStatistics`: three conditional sums in one row. SQL's SUM over
   * no rows is NULL, so an empty table yields no totals.
   */
  function AssignmentStatusTotals(asgs: seq<Assignment>): (r: Option<StatusTotals>)
    ensures r.None? <==> |asgs| == 0
    ensures r.Some? ==> r.value.active + r.value.completed + r.value.expired == |asgs|
    ensures r.Some? ==> r.value.active == |Filter(asgs, WithStatus(Active))|
    ensures r.Some? ==> r.value.completed == |Filter(asgs, WithStatus(Completed))|
    ensures r.Some? ==> r.value.expired == |Filter(asgs, WithStatus(Expired))|
  {
    StatusCountsCoverTable(asgs);
    CountIsFilterLength(asgs, WithStatus(Active));
    CountIsFilterLength(asgs, WithStatus(Completed));
    CountIsFilterLength(asgs, WithStatus(Expired));
    if |asgs| == 0 then None
    else Some(StatusTotals(CountWithStatus(asgs, Active), CountWithStatus(asgs, Completed), CountWithStatus(asgs, Expired)))
  }

  /** The totals row and the grouped rows report the same numbers. */
  lemma TotalsAgreeWithGroups(asgs: seq<Assignment>, row: StatusCount)
    requires row in CountAssignmentsByStatus(asgs)
    ensures AssignmentStatusTotals(asgs).Some?
    ensures row.status == Active ==> row.count == AssignmentStatusTotals(asgs).value.active
    ensures row.status == Completed ==> row.count == AssignmentStatusTotals(asgs).value.completed
    ensures row.status == Expired ==> row.count == AssignmentStatusTotals(asgs).value.expired
  {
  }

  // ---------------------------------------------------------------- averages

  /** One row of `getAverageScoresByStudent`: the student's full name and mean score. */
  datatype ScoreRow = ScoreRow(student: string, average: real)

  /** Graded, and joined to an existing student row. */
  function GradedWithStudent(users: seq<User>): Submission -> bool
  {
    (s: Submission) => s.score.Some? && UserRepository.FindById(users, s.studentId).Some?
  }

  function StudentIdsOf(subs: seq<Submission>): (r: seq<string>)
    ensures forall id :: id in r <==> exists s :: s in subs && s.studentId == id
  {
    if |subs| == 0 then []
    else
      var rest := StudentIdsOf(subs[1..]);
      assert forall s :: s in subs <==> s == subs[0] || s in subs[1..];
      [subs[0].studentId] + rest
  }

  /** The groups of `GROUP BY s.student` over graded submissions: each student once. */
  function GradedStudents(subs: seq<Submission>, users: seq<User>): (r: seq<string>)
    ensures NoDuplicates(r)
    ensures forall id :: id in r <==>
      (exists s :: s in subs && s.studentId == id && s.score.Some?) && UserRepository.FindById(users, id).Some?
  {
    Distinct(StudentIdsOf(Filter(subs, GradedWithStudent(users))))
  }

  /**
   * A student's row: the name from the user table and the mean of the graded scores. It is
   * only taken for the students of `GradedStudents`, where both exist
   * (`RowAverageIsStudentAverage`); the empty name and zero mean are never reported.
   */
  function StudentRow(subs: seq<Submission>, users: seq<User>, id: string): ScoreRow
  {
    var name := match UserRepository.FindById(users, id) case Some(u) => u.fullName case None => "";
    var avg := match SubmissionRepository.AverageScoreOfStudent(subs, id) case Some(m) => m case None => 0.0;
    ScoreRow(name, avg)
  }

  predicate SortedByAverageDesc(rows: seq<ScoreRow>)
  {
    forall i, j :: 0 <= i < j < |rows| ==> rows[i].average >= rows[j].average
  }

  function InsertByAverage(x: ScoreRow, rows: seq<ScoreRow>): (r: seq<ScoreRow>)
    requires SortedByAverageDesc(rows)
    ensures SortedByAverageDesc(r)
    ensures multiset(r) == multiset(rows) + multiset{x}
    ensures |r| == |rows| + 1
    ensures r[0] == x || (|rows| > 0 && r[0] == rows[0])
  {
    if |rows| == 0 then [x]
    else if x.average >= rows[0].average then [x] + rows
    else
      var rest := InsertByAverage(x, rows[1..]);
      assert rows == [rows[0]] + rows[1..];
      assert rest[0].average <= rows[0].average;
      var r := [rows[0]] + rest;
      assert forall i :: 1 <= i < |r| ==> r[i] == rest[i - 1];
      r
  }

  /** `ORDER BY avgScore DESC`: a permutation of the rows, highest mean first. */
  function SortByAverageDesc(rows: seq<ScoreRow>): (r: seq<ScoreRow>)
    ensures SortedByAverageDesc(r)
    ensures multiset(r) == multiset(rows)
  {
    if |rows| == 0 then []
    else
      assert rows == [rows[0]] + rows[1..];
      InsertByAverage(rows[0], SortByAverageDesc(rows[1..]))
  }

  /** The row of each listed student, in list order. */
  function RowsFor(subs: seq<Submission>, users: seq<User>, ids: seq<string>): (r: seq<ScoreRow>)
    ensures |r| == |ids|
    ensures forall i :: 0 <= i < |ids| ==> r[i] == StudentRow(subs, users, ids[i])
  {
    if |ids| == 0 then [] else [StudentRow(subs, users, ids[0])] + RowsFor(subs, users, ids[1..])
  }

  lemma SameMultisetSameMembers(x: seq<ScoreRow>, y: seq<ScoreRow>)
    requires multiset(x) == multiset(y)
    ensures |x| == |y|
    ensures forall row :: row in x <==> row in y
  {
    assert |multiset(x)| == |multiset(y)|;
    forall row ensures row in x <==> row in y {
      assert row in x <==> row in multiset(x);
      assert row in y <==> row in multiset(y);
    }
  }

  /**
   * `getAverageScoresByStudent`: exactly one row per existing student with a graded
   * submission, carrying that student's mean score, ordered by mean descending.
   */
  function AverageScoresByStudent(subs: seq<Submission>, users: seq<User>): (r: seq<ScoreRow>)
    ensures SortedByAverageDesc(r)
    ensures |r| == |GradedStudents(subs, users)|
    ensures forall id :: id in GradedStudents(subs, users) ==> StudentRow(subs, users, id) in r
    ensures forall row :: row in r ==> exists id :: id in GradedStudents(subs, users) && row == StudentRow(subs, users, id)
  {
    var ids := GradedStudents(subs, users);
    var rows := RowsFor(subs, users, ids);
    var r := SortByAverageDesc(rows);
    SameMultisetSameMembers(r, rows);
    RowsForMembers(subs, users, ids);
    r
  }

  /** The rows for a list of students are exactly those students' rows. */
  lemma RowsForMembers(subs: seq<Submission>, users: seq<User>, ids: seq<string>)
    ensures forall id :: id in ids ==> StudentRow(subs, users, id) in RowsFor(subs, users, ids)
    ensures forall row :: row in RowsFor(subs, users, ids) ==>
              exists id :: id in ids && row == StudentRow(subs, users, id)
  {
    var rows := RowsFor(subs, users, ids);
    forall id | id in ids ensures StudentRow(subs, users, id) in rows {
      var i :| 0 <= i < |ids| && ids[i] == id;
      assert rows[i] == StudentRow(subs, users, id);
    }
    forall row | row in rows ensures exists id :: id in ids && row == StudentRow(subs, users, id) {
      var i :| 0 <= i < |rows| && rows[i] == row;
      assert ids[i] in ids;
    }
  }

  /** Each row's mean is the student's average over all of that student's graded submissions. */
  lemma RowAverageIsStudentAverage(subs: seq<Submission>, users: seq<User>, id: string)
    requires id in GradedStudents(subs, users)
    ensures SubmissionRepository.AverageScoreOfStudent(subs, id).Some?
    ensures StudentRow(subs, users, id).average == SubmissionRepository.AverageScoreOfStudent(subs, id).value
    ensures exists u :: u in users && u.id == id && StudentRow(subs, users, id).student == u.fullName
  {
    var u := UserRepository.FindById(users, id).value;
    assert u in users && u.id == id;
  }
}
