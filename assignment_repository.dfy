/** The derived and JPQL queries over the assignment table, as filters and counts. */
module AssignmentRepository {
  import opened Results
  import opened Entities
  import opened Seqs

  /** Row conditions, one per query. */
  function HasId(id: string): Assignment -> bool { (a: Assignment) => a.id == id }
  function InGroup(group: string): Assignment -> bool { (a: Assignment) => a.group == group }
  function TaughtBy(teacherId: string): Assignment -> bool { (a: Assignment) => a.teacherId == teacherId }
  function InGroupWithStatus(group: string, status: Status): Assignment -> bool
  {
    (a: Assignment) => a.group == group && a.status == status
  }
  function OpenForGroup(group: string, now: int): Assignment -> bool
  {
    (a: Assignment) => a.group == group && a.deadline > now && a.status == Active
  }
  function OverdueAt(now: int): Assignment -> bool
  {
    (a: Assignment) => a.deadline < now && a.status == Active
  }
  function DueBetween(group: string, start: int, end: int): Assignment -> bool
  {
    (a: Assignment) => a.group == group && start <= a.deadline <= end
  }

  /** `findById`: the assignment with that primary key, if any. */
  function FindById(asgs: seq<Assignment>, id: string): (r: Option<Assignment>)
    ensures r.None? <==> forall j :: 0 <= j < |asgs| ==> asgs[j].id != id
    ensures r.Some? ==> r.value in asgs && r.value.id == id
  {
    Find(asgs, HasId(id))
  }

  /** `findBygroup`: exactly the assignments of one group. */
  function FindByGroup(asgs: seq<Assignment>, group: string): (r: seq<Assignment>)
    ensures forall a :: a in r <==> a in asgs && a.group == group
  {
    Filter(asgs, InGroup(group))
  }

  /** `findByTeacher`: exactly the assignments the teacher owns. */
  function FindByTeacher(asgs: seq<Assignment>, teacherId: string): (r: seq<Assignment>)
    ensures forall a :: a in r <==> a in asgs && a.teacherId == teacherId
  {
    Filter(asgs, TaughtBy(teacherId))
  }

  /** `findByGroupAndStatus`: the assignments matching both columns. */
  function FindByGroupAndStatus(asgs: seq<Assignment>, group: string, status: Status): (r: seq<Assignment>)
    ensures forall a :: a in r <==> a in asgs && a.group == group && a.status == status
  {
    Filter(asgs, InGroupWithStatus(group, status))
  }

  /** `findActiveAssignmentsForGroup`: ACTIVE assignments of the group whose deadline is after `now`. */
  function FindActiveForGroup(asgs: seq<Assignment>, group: string, now: int): (r: seq<Assignment>)
    ensures forall a :: a in r <==> a in asgs && a.group == group && a.deadline > now && a.status == Active
  {
    Filter(asgs, OpenForGroup(group, now))
  }

  /** `findExpiredAssignments`: ACTIVE assignments whose deadline is before `now`. */
  function FindExpired(asgs: seq<Assignment>, now: int): (r: seq<Assignment>)
    ensures forall a :: a in r <==> a in asgs && a.deadline < now && a.status == Active
  {
    Filter(asgs, OverdueAt(now))
  }

  /** `countByTeacher`. */
  function CountByTeacher(asgs: seq<Assignment>, teacherId: string): nat
  {
    Count(asgs, TaughtBy(teacherId))
  }

  /** `findByGroupAndDeadlineBetween`: SQL BETWEEN includes both bounds. */
  function FindByGroupAndDeadlineBetween(asgs: seq<Assignment>, group: string, start: int, end: int)
    : (r: seq<Assignment>)
    ensures forall a :: a in r <==> a in asgs && a.group == group && start <= a.deadline && a.deadline <= end
  {
    Filter(asgs, DueBetween(group, start, end))
  }

  /** The count query agrees with the length of the list query. */
  lemma CountByTeacherIsListLength(asgs: seq<Assignment>, teacherId: string)
    ensures CountByTeacher(asgs, teacherId) == |FindByTeacher(asgs, teacherId)|
  {
    CountIsFilterLength(asgs, TaughtBy(teacherId));
  }

  /**
   * For one `now`, the open and the overdue lists share nothing, and an assignment whose
   * deadline is exactly `now` is in neither.
   */
  lemma ActiveAndExpiredDisjoint(asgs: seq<Assignment>, group: string, now: int)
    ensures forall a :: a in FindActiveForGroup(asgs, group, now) ==> a !in FindExpired(asgs, now)
    ensures forall a :: a in asgs && a.deadline == now ==>
              a !in FindActiveForGroup(asgs, group, now) && a !in FindExpired(asgs, now)
  {
  }

  /** Filtering by status as well keeps exactly the group's assignments with that status, in order. */
  lemma GroupAndStatusRefinesGroup(asgs: seq<Assignment>, group: string, status: Status)
    ensures FindByGroupAndStatus(asgs, group, status)
         == Filter(FindByGroup(asgs, group), (a: Assignment) => a.status == status)
  {
    FilterOfFilter(asgs, InGroup(group), (a: Assignment) => a.status == status, InGroupWithStatus(group, status));
  }
}
