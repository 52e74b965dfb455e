/**
 * The relational store the services work on: one table per entity, each a sequence of rows
 * (their order carries no meaning), plus the set of file names present in the upload directory.
 */
module Store {
  import opened Results
  import opened Entities
  import opened Seqs

  /** Some row of `asgs` has primary key `id`: the target of a foreign key exists. */
  ghost predicate HasAssignment(asgs: seq<Assignment>, id: string)
  {
    exists j :: 0 <= j < |asgs| && asgs[j].id == id
  }

  /** The email column is unique among the rows where it is not null. */
  ghost predicate UniqueEmails(users: seq<User>)
  {
    forall i, j :: 0 <= i < |users| && 0 <= j < |users| && i != j && users[i].email.Some? ==>
      users[i].email != users[j].email
  }

  /** Primary key, unique username and unique non-null email. */
  ghost predicate UsersConsistent(users: seq<User>)
  {
    UniqueKeys(users, UserId) && UniqueKeys(users, Username) && UniqueEmails(users)
  }

  /** Primary key, and the distinct names `createSubject` keeps. */
  ghost predicate SubjectsConsistent(subjects: seq<Subject>)
  {
    UniqueKeys(subjects, SubjectId) && UniqueKeys(subjects, SubjectName)
  }

  /** Primary key, and every attachment belongs to an existing assignment. */
  ghost predicate AttachmentsConsistent(files: seq<AssignmentFile>, asgs: seq<Assignment>)
  {
    && UniqueKeys(files, AssignmentFileId)
    && forall i :: 0 <= i < |files| ==> HasAssignment(asgs, files[i].assignmentId)
  }

  /**
   * Primary key, the unique (assignment_id, student_id) constraint, and every submission
   * belongs to an existing assignment.
   */
  ghost predicate SubmissionsConsistent(subs: seq<Submission>, asgs: seq<Assignment>)
  {
    && UniqueKeys(subs, SubmissionId)
    && UniqueKeys(subs, SubmissionPair)
    && forall i :: 0 <= i < |subs| ==> HasAssignment(asgs, subs[i].assignmentId)
  }

  ghost predicate Consistent(users: seq<User>, subjects: seq<Subject>, asgs: seq<Assignment>,
                             files: seq<AssignmentFile>, subs: seq<Submission>)
  {
    && UsersConsistent(users)
    && SubjectsConsistent(subjects)
    && UniqueKeys(asgs, AssignmentId)
    && AttachmentsConsistent(files, asgs)
    && SubmissionsConsistent(subs, asgs)
  }

  class Database {
    var users: seq<User>
    var subjects: seq<Subject>
    var assignments: seq<Assignment>
    var attachments: seq<AssignmentFile>
    var submissions: seq<Submission>
    /** The names of the files present in the upload directory. */
    var uploads: set<string>

    ghost predicate Valid()
      reads this
    {
      Consistent(users, subjects, assignments, attachments, submissions)
    }

    constructor ()
      ensures Valid()
      ensures users == [] && subjects == [] && assignments == []
      ensures attachments == [] && submissions == [] && uploads == {}
    {
      users, subjects, assignments := [], [], [];
      attachments, submissions, uploads := [], [], {};
    }
  }
}
