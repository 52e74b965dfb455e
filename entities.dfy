/** The persistent entities: users, subjects, assignments, attachment records, submissions. */
module Entities {
  import opened Results

  /** The three user roles, with their enum constant names and display names. */
  datatype Role = Admin | Teacher | Student
  {
    /** The enum constant's name, as `name()` returns it. */
    function Name(): string
    {
      match this
      case Admin => "ADMIN"
      case Teacher => "TEACHER"
      case Student => "STUDENT"
    }

    /** The Russian display name the enum carries. */
    function DisplayName(): string
    {
      match this
      case Admin => "Администратор"
      case Teacher => "Преподаватель"
      case Student => "Студент"
    }
  }

  /**
   * A user row, as the services build it. The entity declares email, age and role NOT NULL
   * and has no group field, but the administrative registration stores a user with no age,
   * possibly no email, and a group; the model follows the services, so these are optional.
   * Only students carry a group.
   */
  datatype User = User(
    id: string,
    username: string,
    password: string,
    email: Option<string>,
    fullName: string,
    age: Option<int>,
    role: Option<Role>,
    group: Option<string>)
  {
    predicate IsAdmin() { role == Some(Admin) }
    predicate IsTeacher() { role == Some(Teacher) }
    predicate IsStudent() { role == Some(Student) }

    /** The role's display name, or the empty string when the role is null. */
    function RoleDisplayName(): (r: string)
      ensures r == "" <==> role.None?
    {
      if role.Some? then role.value.DisplayName() else ""
    }

    /** The Spring Security authority: "ROLE_" and the role's name, or "" when the role is null. */
    function RoleWithPrefix(): (r: string)
      ensures r == "" <==> role.None?
      ensures role.Some? ==> |r| > 5 && r[..5] == "ROLE_" && r[5..] == role.value.Name()
    {
      if role.Some? then "ROLE_" + role.value.Name() else ""
    }
  }

  /** The assignment lifecycle states. */
  datatype Status = Active | Expired | Completed

  datatype Subject = Subject(id: string, name: string)

  /**
   * An assignment row, with the fields the assignment service reads and writes.
   * Times are integer timestamps; `teacherId` and `subjectId` are foreign keys.
   */
  datatype Assignment = Assignment(
    id: string,
    title: string,
    description: string,
    createdAt: int,
    deadline: int,
    maxScore: int,
    status: Status,
    teacherId: string,
    subjectId: string,
    group: string)

  /** A stored attachment of an assignment: the stored file's name and the uploaded name. */
  datatype AssignmentFile = AssignmentFile(id: string, assignmentId: string, filePath: string, fileName: string)

  /**
   * A submission row. `isLate`, `score`, `feedback`, `gradedBy` and `gradedAt` are nullable;
   * `gradedBy` holds the grading teacher's id.
   */
  datatype Submission = Submission(
    id: string,
    assignmentId: string,
    studentId: string,
    filePath: string,
    submittedAt: int,
    isLate: Option<bool>,
    score: Option<int>,
    feedback: Option<string>,
    gradedBy: Option<string>,
    gradedAt: Option<int>)

  /**
   * An uploaded multipart file, together with what the environment answers for it:
   * the random identifier the storage draws and whether copying its bytes succeeds.
   */
  datatype Upload = Upload(originalName: string, empty: bool, fileId: string, copies: bool)

  /** Key and column projections, used to state uniqueness and to filter tables. */
  function UserId(u: User): string { u.id }
  function Username(u: User): string { u.username }
  function SubjectId(s: Subject): string { s.id }
  function SubjectName(s: Subject): string { s.name }
  function AssignmentId(a: Assignment): string { a.id }
  function AssignmentFileId(f: AssignmentFile): string { f.id }
  function SubmissionId(s: Submission): string { s.id }
  function SubmissionPair(s: Submission): (string, string) { (s.assignmentId, s.studentId) }
  predicate IsGraded(s: Submission) { s.score.Some? }
  predicate IsUngraded(s: Submission) { s.score.None? }
  predicate IsLate(s: Submission) { s.isLate == Some(true) }

  /** At most one role predicate holds, and exactly one when the role is set. */
  lemma RolePredicatesExclusive(u: User)
    ensures (if u.IsAdmin() then 1 else 0) + (if u.IsTeacher() then 1 else 0)
            + (if u.IsStudent() then 1 else 0) == (if u.role.Some? then 1 else 0)
  {
    match u.role
    case None =>
    case Some(r) =>
      match r
      case Admin =>
      case Teacher =>
      case Student =>
  }

  /** The authority string determines the role: different roles never share an authority. */
  lemma {:induction false} RoleWithPrefixInjective(u: User, v: User)
    requires u.RoleWithPrefix() == v.RoleWithPrefix()
    ensures u.role == v.role
  {
    if u.role.Some? && v.role.Some? {
      var a, b := u.role.value, v.role.value;
      assert u.RoleWithPrefix()[5..] == a.Name();
      assert v.RoleWithPrefix()[5..] == b.Name();
    }
  }
}
