/** The access decision of the assignment details page. */
module AssignmentController {
  import opened Results
  import opened Entities
  import opened Seqs
  import opened Views
  import AssignmentRepository
  import UserRepository
  import SubmissionController

  const DetailsView := "assignment-details"

  /**
   * `assignmentDetails`: a student outside the assignment's group and a teacher other than
   * its author are denied; everyone else, administrators included, sees the page. An unknown
   * assignment or user leads back to the assignment list.
   */
  function AssignmentDetails(asgs: seq<Assignment>, users: seq<User>, id: string, username: string)
    : (view: string)
    ensures view in {MyAssignments, AccessDenied, DetailsView}
    ensures view == MyAssignments <==>
      (forall j :: 0 <= j < |asgs| ==> asgs[j].id != id) ||
      (forall j :: 0 <= j < |users| ==> users[j].username != username)
    ensures view == AccessDenied ==> exists a, u ::
      a in asgs && a.id == id && u in users && u.username == username &&
      ((u.IsStudent() && u.group != Some(a.group)) || (u.IsTeacher() && a.teacherId != u.id))
    ensures view == DetailsView ==> exists a, u ::
      a in asgs && a.id == id && u in users && u.username == username &&
      (u.IsStudent() ==> u.group == Some(a.group)) && (u.IsTeacher() ==> a.teacherId == u.id)
  {
    match AssignmentRepository.FindById(asgs, id)
    case None => MyAssignments
    case Some(a) =>
      match UserRepository.FindByUsername(users, username)
      case None => MyAssignments
      case Some(u) =>
        if u.IsStudent() && u.group != Some(a.group) then AccessDenied
        else if u.IsTeacher() && a.teacherId != u.id then AccessDenied
        else DetailsView
  }

  /** An administrator passes both checks and sees any existing assignment. */
  lemma AdminSeesEveryAssignment(asgs: seq<Assignment>, users: seq<User>, id: string, admin: User)
    requires UniqueKeys(users, Username) && admin in users && admin.IsAdmin()
    requires exists j :: 0 <= j < |asgs| && asgs[j].id == id
    ensures AssignmentDetails(asgs, users, id, admin.username) == DetailsView
  {
    var f := UserRepository.FindByUsername(users, admin.username);
    var k :| 0 <= k < |users| && users[k] == f.value;
    var l :| 0 <= l < |users| && users[l] == admin;
    assert Username(users[k]) == Username(users[l]);
  }

  /** A student allowed to hand in is also allowed to read the assignment. */
  lemma SubmitterMaySeeDetails(asgs: seq<Assignment>, users: seq<User>, id: string, username: string)
    requires SubmissionController.ShowSubmitForm(asgs, users, id, username) == SubmissionController.SubmitFormView
    ensures AssignmentDetails(asgs, users, id, username) == DetailsView
  {
  }
}
